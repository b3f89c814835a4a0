/**
 * Type identities and the values a std::any can hold in the core: the
 * payloads of the built-in handlers, the AnyValue wrapper, the None unit,
 * the InvalidAnyCast sentinel, an empty std::any and a bare size_t.
 */
module Values {
  import opened Numeric
  import opened Enums

  /** The runtime types the core tells apart with typeid. */
  datatype TypeId =
    | TBool | TInt | TString | TEnum | TAny | TNone
    | TInvalidCast  // TSys::InvalidAnyCast
    | TVoid         // the type of an empty std::any
    | TSize         // size_t

  /**
   * typeid(T).hash_code(). The real codes are implementation-defined; the
   * model numbers the identities injectively, avoiding 0 (what a failed
   * GetHashFromName returns) and SIZE_MAX (what a failed HashFromApiName returns).
   */
  function IdHash(t: TypeId): (h: SizeT)
    ensures h != 0 && h != SIZE_MAX
  {
    match t
    case TBool => 1
    case TInt => 2
    case TString => 3
    case TEnum => 4
    case TAny => 5
    case TNone => 6
    case TInvalidCast => 7
    case TVoid => 8
    case TSize => 9
  }

  /** Distinct types have distinct hash codes. */
  lemma IdHashInjective(a: TypeId, b: TypeId)
    ensures IdHash(a) == IdHash(b) <==> a == b
  {
  }

  /** typeid(T).name(): implementation-defined; only its distinctness matters here. */
  function TypeName(t: TypeId): string {
    match t
    case TBool => "bool"
    case TInt => "int"
    case TString => "std::string"
    case TEnum => "TSys::Enum"
    case TAny => "TSys::AnyValue"
    case TNone => "TSys::None"
    case TInvalidCast => "TSys::InvalidAnyCast"
    case TVoid => "void"
    case TSize => "unsigned long"
  }

  /** What a std::any holds. */
  datatype Value =
    | VBool(b: bool)
    | VInt(i: Int32)
    | VString(s: string)
    | VEnum(e: EnumValue)
    | VAny(held: Value)   // a TSys::AnyValue and the std::any inside it
    | VNone               // a TSys::None
    | VInvalidCast        // a TSys::InvalidAnyCast
    | VEmpty              // an empty std::any
    | VSize(n: SizeT)     // a size_t

  /** std::any::type(). */
  function TypeOf(v: Value): TypeId {
    match v
    case VBool(_) => TBool
    case VInt(_) => TInt
    case VString(_) => TString
    case VEnum(_) => TEnum
    case VAny(_) => TAny
    case VNone => TNone
    case VInvalidCast => TInvalidCast
    case VEmpty => TVoid
    case VSize(_) => TSize
  }

  /** The hash code of the type a std::any holds: `v.type().hash_code()`. */
  function TypeHash(v: Value): SizeT {
    IdHash(TypeOf(v))
  }

  /** InvalidAnyCast::Hash. */
  function InvalidAnyCastHash(): SizeT {
    IdHash(TInvalidCast)
  }

  /** InvalidAnyCast::IsInvalid: the value is the sentinel, and nothing else is. */
  predicate IsInvalid(v: Value)
    ensures IsInvalid(v) <==> v == VInvalidCast
  {
    TypeHash(v) == InvalidAnyCastHash()
  }

  /** InvalidAnyCast::IsValid. */
  predicate IsValid(v: Value)
    ensures IsValid(v) <==> v != VInvalidCast
  {
    !IsInvalid(v)
  }
}
