/**
 * TSys::TypeHandler and the built-in handlers' value behaviour: identity,
 * names, default and copied values, and the per-handler converter table.
 */
module Handlers {
  import opened Outcomes
  import opened Numeric
  import opened Enums
  import opened Values

  /** The converter objects of the core, one per converter class. */
  datatype ConverterKind =
    | BoolToInt   // StaticCastConverter<bool, int>
    | IntToBool   // StaticCastConverter<int, bool>
    | IntToStr    // NumberToStr<int>
    | EnumToStr
    | StrToBool
    | EnumToBool
    | StrToInt
    | EnumToInt
    | BoolToEnum
    | IntToEnum
    | StrToEnum
    | ToAny       // ToAny<From>, for every From
    | AnyConv     // AnyConverter

  /** The built-in handler classes. */
  datatype HandlerKind = StringHandler | BoolHandler | IntHandler | EnumHandler | AnyHandler | NoneHandler

  /** The type T a handler is written for. */
  function HandledType(k: HandlerKind): TypeId {
    match k
    case StringHandler => TString
    case BoolHandler => TBool
    case IntHandler => TInt
    case EnumHandler => TEnum
    case AnyHandler => TAny
    case NoneHandler => TNone
  }

  /** ApiName(): the discriminator written on the wire. */
  function ApiNameOf(k: HandlerKind): string {
    match k
    case StringHandler => "String"
    case BoolHandler => "Bool"
    case IntHandler => "Int"
    case EnumHandler => "Enum"
    case AnyHandler => "Any"
    case NoneHandler => "None"
  }

  /** The six built-in handlers have six different API names. */
  lemma ApiNamesDistinct(a: HandlerKind, b: HandlerKind)
    ensures ApiNameOf(a) == ApiNameOf(b) ==> a == b
  {
  }

  /** InitValue(): the default value of each handled type. */
  function InitValue(k: HandlerKind): (v: Value)
    ensures TypeOf(v) == HandledType(k)
  {
    match k
    case StringHandler => VString("")
    case BoolHandler => VBool(true)
    case IntHandler => VInt(0)
    case EnumHandler => VEnum(EnumValue(map[], 0))
    case AnyHandler => VAny(VEmpty)
    case NoneHandler => VNone
  }

  /**
   * CopyValue(source): a copy of a value of the handled type; the any_cast
   * throws for any other type, except in NoneHandler, which casts nothing.
   */
  function CopyValue(k: HandlerKind, source: Value): (r: Outcome<Value>)
    ensures k != NoneHandler ==> (r.Ok? <==> TypeOf(source) == HandledType(k))
    ensures r.Ok? ==> TypeOf(r.value) == HandledType(k)
    ensures r.Ok? && k != NoneHandler ==> r.value == source
  {
    if k == NoneHandler then Ok(VNone)
    else if TypeOf(source) == HandledType(k) then Ok(source)
    else Fail(BadAnyCast)
  }

  /** The converter table each built-in handler's constructor fills (float and double entries left out). */
  function BuiltinConverters(k: HandlerKind): map<SizeT, ConverterKind> {
    match k
    case StringHandler =>
      map[IdHash(TInt) := IntToStr, IdHash(TEnum) := EnumToStr, IdHash(TAny) := AnyConv]
    case BoolHandler =>
      map[IdHash(TInt) := IntToBool, IdHash(TString) := StrToBool,
          IdHash(TEnum) := EnumToBool, IdHash(TAny) := AnyConv]
    case IntHandler =>
      map[IdHash(TBool) := BoolToInt, IdHash(TString) := StrToInt,
          IdHash(TEnum) := EnumToInt, IdHash(TAny) := AnyConv]
    case EnumHandler =>
      map[IdHash(TBool) := BoolToEnum, IdHash(TInt) := IntToEnum,
          IdHash(TString) := StrToEnum, IdHash(TAny) := AnyConv]
    case AnyHandler =>
      map[IdHash(TInt) := ToAny, IdHash(TString) := ToAny, IdHash(TEnum) := ToAny]
    case NoneHandler =>
      map[]
  }

  /** What a built-in handler accepts: Any takes no bool, None takes nothing, no handler converts from itself. */
  lemma BuiltinConvertersShape(k: HandlerKind)
    ensures IdHash(HandledType(k)) !in BuiltinConverters(k)
    ensures IdHash(TBool) !in BuiltinConverters(AnyHandler)
    ensures BuiltinConverters(NoneHandler) == map[]
    ensures k != AnyHandler && k != NoneHandler ==> BuiltinConverters(k)[IdHash(TAny)] == AnyConv
    ensures forall h :: h in BuiltinConverters(AnyHandler) ==> BuiltinConverters(AnyHandler)[h] == ToAny
  {
  }

  /** The type a converter yields when it succeeds; AnyConverter yields the type of the current value instead. */
  function Target(c: ConverterKind): TypeId
    requires c != AnyConv
  {
    match c
    case BoolToInt => TInt
    case StrToInt => TInt
    case EnumToInt => TInt
    case IntToBool => TBool
    case StrToBool => TBool
    case EnumToBool => TBool
    case IntToStr => TString
    case EnumToStr => TString
    case BoolToEnum => TEnum
    case IntToEnum => TEnum
    case StrToEnum => TEnum
    case ToAny => TAny
  }

  /** The source types a converter's any_cast admits (ToAny casts nothing from its source). */
  predicate Accepts(c: ConverterKind, t: TypeId) {
    match c
    case BoolToInt => t == TBool
    case BoolToEnum => t == TBool
    case IntToBool => t == TInt
    case IntToStr => t == TInt
    case IntToEnum => t == TInt
    case StrToBool => t == TString
    case StrToInt => t == TString
    case StrToEnum => t == TString
    case EnumToStr => t == TEnum
    case EnumToBool => t == TEnum
    case EnumToInt => t == TEnum
    case ToAny => true
    case AnyConv => t == TAny
  }

  /** Converters that any_cast the current value to their own target type before using it. */
  predicate NeedsCurrent(c: ConverterKind) {
    c == BoolToEnum || c == IntToEnum || c == StrToEnum || c == ToAny
  }

  /** Converter `c` belongs in the table of handler `k`: it yields k's type. */
  predicate Produces(c: ConverterKind, k: HandlerKind) {
    c == AnyConv || Target(c) == HandledType(k)
  }

  /** Each built-in handler's table files every converter under a source it accepts, and every converter yields the handled type. */
  lemma BuiltinCoherent(k: HandlerKind)
    ensures forall key :: key in BuiltinConverters(k) ==> Produces(BuiltinConverters(k)[key], k)
    ensures forall t :: IdHash(t) in BuiltinConverters(k) ==> Accepts(BuiltinConverters(k)[IdHash(t)], t)
  {
    forall t | IdHash(t) in BuiltinConverters(k)
      ensures Accepts(BuiltinConverters(k)[IdHash(t)], t)
    {
      BuiltinAccepts(k, t);
    }
  }

  /** The entry of a built-in table filed under type `t`, if any, accepts `t`. */
  lemma BuiltinAccepts(k: HandlerKind, t: TypeId)
    requires IdHash(t) in BuiltinConverters(k)
    ensures Accepts(BuiltinConverters(k)[IdHash(t)], t)
  {
    match k
    case StringHandler =>
    case BoolHandler =>
    case IntHandler =>
    case EnumHandler =>
    case AnyHandler =>
    case NoneHandler =>
  }

  /**
   * The StaticCastConverter<From, T> that RegisterConstructibleConverter<From>
   * installs in GenericTypeHandler<T>, for the integral pairs of the core.
   */
  function StaticCastFor(from: TypeId, k: HandlerKind): ConverterKind
    requires (from, k) == (TBool, IntHandler) || (from, k) == (TInt, BoolHandler)
  {
    if k == IntHandler then BoolToInt else IntToBool
  }

  /** A type handler object; only its converter table changes after construction. */
  class TypeHandler {
    const kind: HandlerKind
    var converters: map<SizeT, ConverterKind>

    /** The constructor of the built-in handler class `kind`, which registers its converters. */
    constructor (kind: HandlerKind)
      ensures this.kind == kind
      ensures converters == BuiltinConverters(kind)
      ensures Coherent()
    {
      this.kind := kind;
      converters := map[];
      new;
      match kind {
        case StringHandler =>
          RegisterConverter(TInt, IntToStr);
          RegisterConverter(TEnum, EnumToStr);
          RegisterConverter(TAny, AnyConv);
        case BoolHandler =>
          RegisterConstructibleConverter(TInt);
          RegisterConverter(TString, StrToBool);
          RegisterConverter(TEnum, EnumToBool);
          RegisterConverter(TAny, AnyConv);
        case IntHandler =>
          RegisterConstructibleConverter(TBool);
          RegisterConverter(TString, StrToInt);
          RegisterConverter(TEnum, EnumToInt);
          RegisterConverter(TAny, AnyConv);
        case EnumHandler =>
          RegisterConverter(TBool, BoolToEnum);
          RegisterConverter(TInt, IntToEnum);
          RegisterConverter(TString, StrToEnum);
          RegisterConverter(TAny, AnyConv);
        case AnyHandler =>
          RegisterConverter(TInt, ToAny);
          RegisterConverter(TString, ToAny);
          RegisterConverter(TEnum, ToAny);
        case NoneHandler =>
      }
      BuiltinCoherent(kind);
    }

    /**
     * Every converter in the table yields the handled type and is filed
     * under a source type it accepts.
     */
    ghost predicate Coherent()
      reads this
    {
      && (forall key :: key in converters ==> Produces(converters[key], kind))
      && (forall t :: IdHash(t) in converters ==> Accepts(converters[IdHash(t)], t))
    }

    /** RegisterConverter<From, C>: installs `c` under From's hash, overwriting, and touches no other key. */
    method RegisterConverter(from: TypeId, c: ConverterKind)
      modifies this
      ensures converters == old(converters)[IdHash(from) := c]
    {
      converters := converters[IdHash(from) := c];
    }

    /** GenericTypeHandler<T>::RegisterConstructibleConverter<From>: installs StaticCastConverter<From, T>. */
    method RegisterConstructibleConverter(from: TypeId)
      requires (from, kind) == (TBool, IntHandler) || (from, kind) == (TInt, BoolHandler)
      modifies this
      ensures converters == old(converters)[IdHash(from) := StaticCastFor(from, kind)]
    {
      converters := converters[IdHash(from) := StaticCastFor(from, kind)];
    }

    /** GetConverter(from): the entry for the held type's hash, or an empty handle. */
    function GetConverter(from: Value): (r: Option<ConverterKind>)
      reads this
      ensures r.Some? <==> TypeHash(from) in converters
      ensures r.Some? ==> r.value == converters[TypeHash(from)]
    {
      if TypeHash(from) in converters then Some(converters[TypeHash(from)]) else None
    }

    /** TypeHandler::CanConvertFrom: whether GetConverter yields a converter. */
    predicate CanConvertFrom(value: Value)
      reads this
      ensures CanConvertFrom(value) <==> TypeHash(value) in converters
    {
      GetConverter(value).Some?
    }

    /** Hash(): typeid(T).hash_code(). */
    function Hash(): (h: SizeT)
      ensures h != 0 && h != SIZE_MAX
      ensures forall v :: TypeOf(v) == HandledType(kind) ==> TypeHash(v) == h
    {
      IdHash(HandledType(kind))
    }

    /** Name(): typeid(T).name(). */
    function Name(): string {
      TypeName(HandledType(kind))
    }

    /** ApiName(): the discriminator written on the wire. */
    function ApiName(): string {
      ApiNameOf(kind)
    }
  }
}
