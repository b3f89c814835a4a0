# Tsys runtime type system, modelled in Dafny

Tsys gives a C++ program runtime types. A value lives in a `std::any`. Each
type that takes part has a *type handler*. A handler holds a table of
*converters* keyed by the source type's hash code. It also knows how to build,
copy, compare, hash and (de)serialise values of its type. A process-wide
`TypeRegistry` maps type hashes, C++ type names and API names to handlers.

The built-in types are:

- `std::string`, `bool` and `int`;
- `Enum`: an ordered table from unsigned index to label, plus a current index;
- `AnyValue`: a `std::any` that can be overwritten, converted to a registered
  type by hash, and compared through the registry;
- `None`.

This project models that core and proves its contracts. One module stands
for each piece:

| module | file | what it models |
|---|---|---|
| `Outcomes` | outcomes.dfy | `Option`, and `Outcome` for results that can throw (`bad_any_cast`, a malformed JSON array, `std::map::at` out of range) |
| `Numeric` | numeric.dfy | `unsigned int` / `int` / `size_t`; the implicit `int` ↔ `unsigned int` conversions; `std::to_string` and a whole-string `std::stoi` |
| `Enums` | enums.dfy | `EnumValue`, the value, and class `Enum`, whose methods change it in place; `std::map` iteration order as the ascending `SortedKeys` |
| `Values` | values.dfy | type identities (`typeid`), their hash codes, and what a `std::any` can hold |
| `Handlers` | handlers.dfy | class `TypeHandler` with its converter table; each built-in handler's `InitValue`, `CopyValue`, `ApiName` and converter registrations |
| `Registry` | registry.dfy | class `TypeRegistry`: registration with and without `force`, every lookup, and the lazily created singleton |
| `Conversion` | conversion.dfy | every non-floating converter, `AnyConverter`, and `TypeHandler::ConvertFrom` |
| `Equality` | equality.dfy | each handler's `CompareValue` and `ValueHash` (up to the final `std::hash`), and `AnyValue::operator==` |
| `AnyValues` | anyvalue.dfy | class `AnyValue`: `Get`, `Set`/`SetInput`, `Hash`, `ConvertTo` and both `operator==` |
| `Serialization` | serialization.dfy | the handlers' value and construction (de)serialisation, with the JSON array as a sequence of string, int and bool items |

The registry's handlers, the `Enum` and `AnyValue` objects and the JSON array
are classes, because the source changes them in place. The converters,
comparisons and hashes are functions over the `Value` datatype. A `Value`
holds a bool, an int, a string, an Enum, an AnyValue (with the value it
wraps), a None, the `InvalidAnyCast` sentinel, an empty `std::any` or a bare
`size_t`.

Type hash codes are modelled as an injective numbering of the type
identities. No type gets 0, which a failed `GetHashFromName` returns, or
`(size_t)-1`, which a failed `HashFromApiName` returns. An exception is a
`Fail` outcome. No member requires away an input the source accepts and
handles; where the source dereferences a null handle the requirement is
stated and commented.

The model follows the code as written, with three exceptions: the
defects listed under "## Findings" (StrToBool, AnyConverter and the
current value AnyValue::ConvertTo passes). There the main members
(`Conversion.Cast`, `Conversion.AnyConvert`, `AnyValues.AnyValue.ConvertTo`)
carry the evidently intended behaviour, and an `…AsWritten` member beside
each models the code as it stands. Behaviour that is surprising but not a
defect is modelled as written:

- The default `AnyValue`, which `AnyHandler::InitValue` returns, holds an empty
  `std::any`. No handler handles that, so the value is not equal to itself
  (`Equality.InitValueSelfEqual`).
- The scalar and None handlers' `CompareValue` (the template in `BaseTypeHandler`)
  any_casts both operands and so throws `bad_any_cast` on a value of another
  type. Only the Enum and Any handlers answer false instead.
- The Enum hash text does not determine the table, because an empty first
  label swallows the separator (`Equality.EnumHashTextCollides`).
- Enum's `DeserializeConstruction` reads element `i + 1` without a bounds check.
  The model reports an odd element out, or a pair of the wrong shape, as a
  malformed array instead of requiring it away.

## Model

| member | source | states |
|---|---|---|
| Numeric.ToUInt32 | src/defaultTypes.cpp:104-107 | the `int` index AddValue receives becomes the unsigned key: unchanged when non-negative, plus 2^32 when negative |
| Numeric.ToInt32 | src/defaultTypes.cpp:110-119 | an unsigned key stored into the `std::vector<int>` of Indices converts back to the same key, and keys below 2^31 are unchanged |
| Numeric.ParseInt | src/defaultTypes.cpp:530-543 | the parse fails on empty text, and a string of decimal digits whose value fits in an `int` parses to that value |
| Numeric.DigitsValueOfNatToString | src/defaultTypes.cpp:262-279 | reading back the decimal text `std::to_string` writes for a non-negative number gives the number |
| Numeric.NatToStringInjective | src/defaultTypes.cpp:1089 | different current indices give different decimal texts |
| Numeric.IntToStringRoundTrip | src/defaultTypes.cpp:262-279 | parsing the text NumberToStr writes for any `int` gives that `int` back |
| Numeric.NegativeRoundTrip | src/defaultTypes.cpp:262-279 | the negative half of that round trip: a minus sign, then the magnitude's digits |
| Numeric.ToInt32OfToUInt32 | src/defaultTypes.cpp:104-119 | an `int` index stored as an unsigned key and read back as an `int` is unchanged |
| Enums.MinExists | src/defaultTypes.cpp:110-119 | every non-empty key set has a least key, where `std::map` iteration starts |
| Enums.MinIndex | src/defaultTypes.cpp:110-119 | the key chosen is in the set and below every other key |
| Enums.SortedKeys | src/defaultTypes.cpp:110-119 | the keys in `std::map` order hold exactly the table's keys, once each, strictly ascending |
| Enums.FirstWithLabelIsLeast | src/defaultTypes.cpp:89-101 | the ascending scan finds a key iff some key carries the label, and then finds the least such key |
| Enums.EnumValue.SelectIndex | src/defaultTypes.cpp:77-86 | succeeds iff the index is a key; then that index is current, else the current index is kept; the table never changes |
| Enums.EnumValue.SelectLabel | src/defaultTypes.cpp:89-101 | selecting by label never changes the table |
| Enums.EnumValue.AddValue | src/defaultTypes.cpp:104-107 | the key set gains the unsigned index, which now carries the label; every other label and the current index stay |
| Enums.EnumValue.Indices | src/defaultTypes.cpp:110-119 | one index per key, each naming a key of the table |
| Enums.EnumValue.IndicesAscending | src/defaultTypes.cpp:110-119 | the indices, read as unsigned keys, are strictly ascending |
| Enums.EnumValue.IndicesCover | src/defaultTypes.cpp:110-119 | every key of the table appears among the indices |
| Enums.IndexLabel | src/defaultTypes.cpp:121-124 | `ValueAtIndex` of the j-th index succeeds and gives the j-th label in map order |
| Enums.SelectLabelSpec | src/defaultTypes.cpp:89-101 | SetCurrentValue succeeds iff some label equals the text, selects the least index carrying it, and otherwise changes nothing |
| Enums.EnumValue.CurrentValue | src/defaultTypes.cpp:60-68 | the label at the current index, or the empty string when the current index is not a key |
| Enums.EnumValue.Equals | include/defaultTypes.h:79-87 | two Enums are equal iff their current labels are; indices and tables are not compared (see `Equality.EnumCompareIsEquals`) |
| Enums.LabelsTable | src/defaultTypes.cpp:40-57 | the vector constructors' table has exactly the keys below the vector's length |
| Enums.Enum.constructor | src/defaultTypes.cpp:13-17 | an empty table at current index 0 |
| Enums.Enum.FromTable | src/defaultTypes.cpp:19-38 | the given table and current index |
| Enums.Enum.FromLabels | src/defaultTypes.cpp:49-57 | label `v[u]` at index `u` for every position of the vector, then the given current index |
| Enums.Enum.SetCurrentIndex | src/defaultTypes.cpp:77-86 | the new state and result are those of SelectIndex |
| Enums.Enum.SetCurrentValue | src/defaultTypes.cpp:89-101 | the ascending search loop ends in SelectLabel's state and result |
| Enums.Enum.AddValue | src/defaultTypes.cpp:104-107 | the new state is EnumValue.AddValue of the old |
| Enums.Enum.Indices | src/defaultTypes.cpp:110-119 | the loop over the map collects exactly EnumValue.Indices |
| Enums.Enum.ValueAtIndex | src/defaultTypes.cpp:121-124 | the label at the unsigned index, or an out-of-range failure for a missing key |
| Values.IdHash | include/tsys.h:200-203 | a type's hash code is neither 0 nor `(size_t)-1` |
| Values.IdHashInjective | include/tsys.h:200-203 | two types have the same hash code iff they are the same type |
| Values.IsInvalid | src/defaultTypes.cpp:146-149 | true exactly for the InvalidAnyCast sentinel |
| Values.IsValid | src/defaultTypes.cpp:152-155 | true exactly for every value other than the InvalidAnyCast sentinel |
| Handlers.ApiNamesDistinct | src/defaultTypes.cpp:317-320 | the six built-in handlers have six different API names |
| Handlers.ApiNameOf | src/defaultTypes.cpp:317-320 | each built-in handler's wire discriminator: String, Bool, Int, Enum, Any, None (one `ApiName()` override per handler) |
| Handlers.InitValue | src/defaultTypes.cpp:303-306 | each handler's default value has the handled type (`""`, `true`, `0`, an empty Enum, an empty AnyValue, None) |
| Handlers.CopyValue | src/defaultTypes.cpp:309-314 | succeeds iff the source has the handled type, and returns it; None copies anything into None |
| Handlers.BuiltinConvertersShape | src/defaultTypes.cpp:1128-1135 | the Any handler has no converter from bool, None has none at all, and no handler converts from its own type |
| Handlers.BuiltinCoherent | src/defaultTypes.cpp:423-431 | every built-in table entry yields the handled type and accepts the source type it is filed under |
| Handlers.BuiltinAccepts | src/defaultTypes.cpp:556-564 | the entry filed under a source type accepts that type |
| Handlers.TypeHandler.constructor | src/defaultTypes.cpp:953-961 | the handler's table is exactly the one its class registers, and coherent |
| Handlers.TypeHandler.RegisterConverter | include/tsys.h:57-61 | the source type's entry becomes the converter, overwriting, and no other entry changes |
| Handlers.TypeHandler.RegisterConstructibleConverter | include/tsys.h:219-223 | installs the static cast from the source type to the handled type under the source's hash |
| Handlers.TypeHandler.GetConverter | include/tsys.h:63-72 | the entry for the value's type hash when there is one, an empty handle otherwise |
| Handlers.TypeHandler.CanConvertFrom | src/tsys.cpp:21-24 | true iff the table has an entry for the value's type hash |
| Handlers.TypeHandler.Hash | include/tsys.h:199-202 | the hash of the handled type, which every value of that type also has, and never 0 or `(size_t)-1` |
| Handlers.TypeHandler.Name | include/tsys.h:204-207 | the handled type's name |
| Handlers.TypeHandler.ApiName | include/tsys.h:165 | the handler's wire discriminator, as `Handlers.ApiNameOf` gives it |
| Registry.RegisterKeepsIndexed | src/tsys.cpp:75-81 | the updates RegisterType makes keep the handler, name and API-name tables in agreement with the hash list |
| Registry.RegisterKeepsNamesAgree | src/tsys.cpp:78-79 | registering a new hash, or a handler with the old name, keeps every name resolving to a handler of that name |
| Registry.RegisterKeepsAgree | src/tsys.cpp:75-76 | filing a coherent handler under its own hash keeps every handler under its own hash |
| Registry.TypeRegistry.constructor | include/tsys.h:242-245 | an empty registry whose tables agree |
| Registry.TypeRegistry.GetHashFromName | src/tsys.cpp:27-37 | success iff the name is known; then the stored hash, which is registered; otherwise 0 |
| Registry.TypeRegistry.GetNameFromHash | src/tsys.cpp:40-50 | success iff the hash is registered; then its handler's name; otherwise `""` |
| Registry.TypeRegistry.HashFromApiName | src/tsys.cpp:97-105 | the registered hash of a known API name, `(size_t)-1` for an unknown one |
| Registry.TypeRegistry.GetTypeHandle | src/tsys.cpp:108-116 | non-null iff the hash is registered, and then its handler |
| Registry.TypeRegistry.GetTypeHandleFromName | src/tsys.cpp:119-127 | non-null iff the name is known, and then the handler of its hash |
| Registry.TypeRegistry.GetTypeHandleFromApiName | src/tsys.cpp:141-149 | non-null iff the API name is known, and then the handler of its hash |
| Registry.TypeRegistry.GetTypeHandleOf | include/tsys.h:288-292 | exactly GetTypeHandle of the type's hash |
| Registry.TypeRegistry.RegisterType | src/tsys.cpp:65-83 | refused with nothing changed iff the hash is registered and `force` is off; otherwise the hash is appended and all four tables point at the handler; the tables stay in agreement |
| Registry.TypeRegistry.RegisterTypeOf | include/tsys.h:262-270 | RegisterType under the type's hash: refused, changing nothing, iff the hash is taken and `force` is unset; otherwise the hash is appended and all four indices point at the handler, its name and its API name; name consistency is kept when the name under that hash does not change |
| Registry.TypeRegistry.RegisterNewTypeOf | include/tsys.h:272-278 | registers a fresh handler of the class with its built-in table: refused iff the hash is taken and `force` is unset; otherwise the hash is appended and the indices map it to the handler, the handled type's name and the handler's API name; keeps every handler under its own type and keeps name consistency |
| Registry.LookupsAfterRegister | src/tsys.cpp:75-82 | after a registration, the hash, the handler's name and its API name all look up the handler, and other hashes keep theirs |
| Registry.NameRoundTrip | src/tsys.cpp:27-50 | a name that finds a hash is the name recorded for that hash, and names the handler it looks up |
| Registry.StaleNameAfterForce | src/tsys.cpp:70-81 | a forced registration over a hash leaves its old name pointing at it, now resolving to a handler with another name |
| Registry.RegistrySingleton.GetRegistry | src/tsys.cpp:155-163 | the first call creates an empty registry, and later calls return the same one; the registry it returns has consistent indices |
| Conversion.Cast | include/tsys.h:32-40 | a converter succeeds iff its any_cast of the source succeeds (StrToInt always succeeds) and, for the Enum and Any converters, the current value has the target type; the result has the target type; an Enum result keeps the current value's table (the values each converter yields: `Conversion.ScalarConverterValues` and the round-trip lemmas) |
| Conversion.CastFrom | src/defaultTypes.cpp:530-553 | the converters that ignore the current value succeed iff the source has the accepted type, StrToInt always, and yield the target type |
| Conversion.CastWithCurrent | src/defaultTypes.cpp:901-950 | the Enum and Any converters succeed iff both any_casts succeed, and the Enum ones keep the current value's table |
| Conversion.StrToBoolAsWritten | src/defaultTypes.cpp:404-411 | the converter as written succeeds exactly on strings |
| Conversion.StrToBoolAsWrittenInverts | src/defaultTypes.cpp:404-411 | as written `""` becomes true and `"x"` false; corrected, the opposite |
| Conversion.StrToBoolTruthiness | src/defaultTypes.cpp:404-411 | corrected, a string converts to true iff it is non-empty; as written, iff it is empty |
| Conversion.CastAsWritten | src/defaultTypes.cpp:404-411 | the converters as written: defined exactly where the corrected ones are, and equal to them except StrToBool |
| Conversion.Apply | include/tsys.h:25-29 | on agreeing handlers, a converter given an accepted source (and a current value of its type) yields its target type, or the current value's type for AnyConverter |
| Conversion.AnyConvert | include/defaultTypes.h:162-186 | corrected: the held value when its type is the current value's; the current value when that type has no handler or the handler has no converter from the held type; otherwise exactly the handler's ConvertFrom of the held value; on agreeing handlers, always a value of the current value's type |
| Conversion.AnyConvertAsWritten | include/defaultTypes.h:162-186 | as written, the held value when its type is the current value's, and the current value when that type has no handler |
| Conversion.AnyConvertAsWrittenNeverConverts | include/defaultTypes.h:179-182 | as written, a held value of another type always comes back as the unchanged current value when the target has no `size_t` converter |
| Conversion.BuiltinHasNoSizeConverter | src/defaultTypes.cpp:293-300 | no built-in handler has a converter from `size_t` |
| Conversion.ConvertFrom | src/tsys.cpp:8-18 | the current value when no converter applies; on agreeing handlers, a value of the handled type |
| Conversion.ApplyAsWritten | include/tsys.h:25-29 | as written, a converter other than AnyConverter behaves as `Conversion.CastAsWritten`; AnyConverter throws on a source that is not an AnyValue |
| Conversion.ConvertFromAsWritten | src/tsys.cpp:8-18 | as written, the current value when no converter applies, and the same result as `Conversion.ConvertFrom` whenever the converter found is neither StrToBool nor AnyConverter |
| Conversion.ScalarConverterValues | src/defaultTypes.cpp:280-553 | for every source of the accepted type: bool → int is 1 or 0, int → bool is `i != 0`, int → string is the decimal text, Enum → string the current label, Enum → bool `index != 0`, Enum → int the current index read as `int` |
| Conversion.EnumIntRoundTrip | src/defaultTypes.cpp:546-553 | Enum → int → Enum over the same table selects the same index when it is a key; int → Enum → int gives the int back when it names a key |
| Conversion.EnumStringRoundTrip | src/defaultTypes.cpp:942-950 | Enum → string → Enum over the same table selects an equal Enum (same label, least index carrying it), and the same Enum when no other key shares the label |
| Conversion.ViaConverter | src/tsys.cpp:15-17 | with a registered (non-Any) converter, ConvertFrom is that converter's Convert |
| Conversion.ToAnyThenBack | src/defaultTypes.cpp:1114-1124 | wrapping a value with ToAny and unwrapping it with AnyConverter to its own type gives it back |
| Conversion.IntStringRoundTrip | src/defaultTypes.cpp:262-279 | int → string → int is the identity |
| Conversion.StrToIntParses | src/defaultTypes.cpp:530-543 | StrToInt yields the parsed number, or 0 when the text does not parse |
| Conversion.BoolIntRoundTrip | include/tsys.h:32-40 | bool → int → bool through the two static casts is the identity |
| Conversion.IntToEnumKeepsTable | src/defaultTypes.cpp:911-919 | int → Enum selects the index when it is a key, else leaves the current Enum as it was; the table is kept |
| Conversion.IntFromStringExample | src/defaultTypes.cpp:530-543 | example: the Int handler converts `"42"` to 42 |
| Conversion.IntFromBadStringExample | src/defaultTypes.cpp:530-543 | example: the Int handler converts `"not a number"` to 0 |
| Conversion.StringFromEnumExample | src/defaultTypes.cpp:282-289 | example: the String handler converts a one-entry Enum to its current label |
| Conversion.EnumFromIntExample | src/defaultTypes.cpp:911-919 | example: the Enum handler converts 1 into the current Enum with index 1 selected |
| Equality.CompareValue | include/tsys.h:210-213 | scalar and None handlers: defined iff both operands have the handled type, then payload equality; Enum: never throws, equal iff both are Enums with the same current label; Any: false unless both operands are AnyValues, otherwise exactly AnyValue::operator== on the held values, and equal only for two held values of one type |
| Equality.AnyEquals | src/defaultTypes.cpp:227-242 | false when the types differ or are unregistered; equal only for one type |
| Equality.CompareSymmetric | include/defaultTypes.h:437-452 | every handler's comparison is symmetric, exceptions included |
| Equality.EnumCompareIsEquals | src/defaultTypes.cpp:127-130 | the Enum handler's comparison is Enum::operator==, which is reflexive, symmetric and transitive |
| Equality.CompareReflexive | include/defaultTypes.h:461-464 | every value of the handled type equals itself when nested Any types are registered |
| Equality.AnyUnregisteredNeverEqual | src/defaultTypes.cpp:234-239 | an AnyValue holding an unregistered type equals nothing |
| Equality.InitValueSelfEqual | src/defaultTypes.cpp:1138-1141 | every built-in default equals itself except the Any one, which equals nothing |
| Equality.JoinedStep | src/defaultTypes.cpp:1081-1087 | one turn of the hash loop appends the separator (unless the text is empty) and the label |
| Equality.EnumHashTextOf | src/defaultTypes.cpp:1076-1091 | the loop builds the labels in map order, joined by `:`, then `:` and the current index |
| Equality.ValueHash | src/defaultTypes.cpp:1243-1253 | scalars and Enums hash iff the type matches; None hashes to 0; Any hashes to 0 for an unregistered type and throws on a non-AnyValue |
| Equality.HashConsistentWithCompare | include/tsys.h:225-230 | scalar values that compare equal hash equally |
| Equality.EnumEqualButHashesDiffer | src/defaultTypes.cpp:1076-1110 | two Enums with one current label and different tables compare equal yet hash differently |
| Equality.EnumHashTextDetectsIndex | src/defaultTypes.cpp:1089 | over one table, different current indices give different hash texts |
| Equality.EnumHashTextCollides | src/defaultTypes.cpp:1081-1087 | `{0: "", 1: "B"}` and `{0: "B"}` have the same hash text |
| AnyValues.AnyValue.Empty | include/defaultTypes.h:111 | holds an empty `std::any` |
| AnyValues.AnyValue.Of | include/defaultTypes.h:113-117 | holds the given value |
| AnyValues.AnyValue.SetInput | src/defaultTypes.cpp:165-168 | the held value is replaced wholesale |
| AnyValues.AnyValue.Hash | src/defaultTypes.cpp:171-174 | the held type's hash code |
| AnyValues.AnyValue.Get | include/defaultTypes.h:121-134 | the status is true iff the held type is the one asked for; then the held value, otherwise `bad_any_cast` |
| AnyValues.AnyValue.InputValue | src/defaultTypes.cpp:183-186 | the held value, whose type hash is the AnyValue's hash |
| AnyValues.AnyValue.ConvertTo | src/defaultTypes.cpp:211-225 | corrected: the held value for its own hash; the InvalidAnyCast sentinel for an unregistered hash; the handler's default when it has no converter; otherwise exactly that handler's ConvertFrom of the held value starting from its InitValue; on agreeing handlers, always a value of the requested type |
| AnyValues.AnyValue.ConvertToAsWritten | src/defaultTypes.cpp:211-225 | as written, over the converters as written: the held value for its own hash or when the handler has no converter from it; the sentinel for an unregistered hash; otherwise exactly that handler's ConvertFrom (as written) of the held value with the held value as the current value |
| AnyValues.AnyValue.Equals | src/defaultTypes.cpp:227-242 | false across types or for an unregistered type; equal only for one type; the Any handler's comparison |
| AnyValues.AnyValue.EqualsAny | src/defaultTypes.cpp:244-258 | the same against a bare `std::any` |
| AnyValues.EqualsSymmetric | src/defaultTypes.cpp:227-242 | AnyValue equality is symmetric |
| AnyValues.EqualsReflexive | src/defaultTypes.cpp:227-242 | an AnyValue of a registered type equals itself |
| AnyValues.ConvertIntToEnumAsWrittenThrows | src/defaultTypes.cpp:224 | as written an int converted to the Enum type throws `bad_any_cast`; corrected, it yields the default Enum |
| AnyValues.ConvertIntToString | src/defaultTypes.cpp:211-225 | an AnyValue holding 5 converts to `"5"` |
| AnyValues.ConvertIntToBool | src/defaultTypes.cpp:211-225 | an AnyValue holding 5 converts to true |
| AnyValues.ConvertEmptyStringToBool | src/defaultTypes.cpp:404-411 | an AnyValue holding `""` converts to the built-in bool handler as true as written, and as false corrected |
| AnyValues.ConvertToUnregistered | src/defaultTypes.cpp:217-221 | example: an AnyValue holding 5 converted to the unregistered None hash gives the sentinel, which IsInvalid detects (the all-inputs case is in `AnyValues.AnyValue.ConvertTo`'s contract) |
| Serialization.ApiNameOfValue | src/defaultTypes.cpp:358 | the API name of the handler registered for the value's type |
| Serialization.ValueItems | src/defaultTypes.cpp:1009-1025 | the payload is one item iff the value has the handled type (an Enum's current index), nothing for None, `bad_any_cast` otherwise |
| Serialization.SerializeValue | src/defaultTypes.cpp:353-370 | pushes the API name, then the payload when the cast succeeds; None pushes nothing |
| Serialization.DeserializeValue | src/defaultTypes.cpp:1028-1036 | reads element 1 as the handled type or fails as malformed; the value read saves back to that same element; an Enum keeps the template's table, saves back to the element when its index is a key there, and is the unchanged template otherwise |
| Serialization.ValueRoundTrip | src/defaultTypes.cpp:353-378 | loading a saved String, Bool, Int or Enum value gives it back (an Enum needs a template with its table and a current index in it) |
| Serialization.EnumValueIntoTemplate | src/defaultTypes.cpp:1028-1036 | an Enum saved and loaded into a template with any table selects the saved index there when it is a key, and otherwise gives the template back unchanged |
| Serialization.Pairs | src/defaultTypes.cpp:1044-1055 | two items per index |
| Serialization.EnumPairs | src/defaultTypes.cpp:1039-1056 | an Enum's construction holds two items per key |
| Serialization.SerializeConstruction | src/defaultTypes.cpp:1039-1056 | pushes the API name, then for an Enum its pairs in index order; fails only for a non-Enum given to the Enum handler; Any and None push nothing |
| Serialization.PushPairs | src/defaultTypes.cpp:1044-1055 | the loop appends exactly the Enum's pairs |
| Serialization.PushPair | src/defaultTypes.cpp:1053-1054 | one turn of the loop appends the index, then its label |
| Serialization.DecodePairs | src/defaultTypes.cpp:1059-1073 | decoding keeps the current index and only adds keys |
| Serialization.DecodePairsOfPairs | src/defaultTypes.cpp:1064-1070 | decoding the pairs written for some indices adds each of them in order |
| Serialization.AddAllSpec | src/defaultTypes.cpp:1064-1070 | the table gains exactly the listed keys with their labels, keeps every other entry and the current index |
| Serialization.KeysOfIndices | src/defaultTypes.cpp:110-119 | an Enum's indices name exactly its keys |
| Serialization.RebuildsTable | src/defaultTypes.cpp:1059-1073 | adding an Enum's pairs to an empty Enum rebuilds its table at index 0 |
| Serialization.DeserializeEnumConstruction | src/defaultTypes.cpp:1059-1073 | the `i += 2` loop over an Enum object gives exactly DecodePairs |
| Serialization.DeserializeConstruction | src/defaultTypes.cpp:397-400 | non-Enum handlers return their default; the Enum handler's result is at index 0 |
| Serialization.EnumConstructionRoundTrip | src/defaultTypes.cpp:1039-1073 | loading a saved Enum construction gives the same table at index 0 |
| Serialization.EnumRoundTrip | src/defaultTypes.cpp:1009-1073 | loading the construction and then the value gives the Enum back when its index is a key |
| Serialization.EnumPairsExample | src/defaultTypes.cpp:1039-1056 | example: `{0: "A", 1: "B", 2: "C"}` saves as `0, "A", 1, "B", 2, "C"` |
| Serialization.DanglingKeyIsMalformed | src/defaultTypes.cpp:1064-1069 | an index without a label after it is malformed |

## Left out

- The Python bridge: `FromPython`, `ToPython`, `PythonName`, `PythonModule`, `Python_Get` and `Python_Set`, the python-name tables and their lookups (`GetHashFromPythonType`, `HashFromPythonTypeName`, `GetTypeHandleFromPythonName`). These are foreign calls into the Python runtime.
- The `float` and `double` handlers and their converters (`NumberToStr<float|double>`, the float/double static casts, `FloatToEnum`, `DoubleToEnum`): floating point. Their entries are also missing from the built-in converter tables.
- The mechanics of rapidjson (allocators, `StringRef`, documents). A JSON array is a sequence of string, int and bool items. A rapidjson assertion on the wrong item kind or a missing item is a malformed-array failure.
- The Any handler's value-mode `SerializeValue` and `DeserializeValue`. They write a mangled C++ type name and call a `GetTypeHandle(std::any)` overload that the registry does not declare. `ValueItems`, `SerializeValue` and `DeserializeValue` require a handler other than Any for this reason.
- `GetTypeHandle(std::any)`, which the serialisers call, is modelled as a lookup of the value's type hash.
- Exact `std::stoi` semantics. Leading whitespace, trailing characters and partial parses are not reproduced. `ParseInt` accepts an optional sign followed by digits that fit in an `int`.
- Numeric.ParseInt: states the digit-only case outright; for signed text the contract is weaker than the body, whose round trip with `std::to_string` is proved in `Numeric.IntToStringRoundTrip`.
- Concrete values of `typeid(...).hash_code()`, `typeid(...).name()` and `std::hash`. Hash codes are an injective numbering, names are fixed distinct strings, and `ValueHash` stops at what it would feed to `std::hash` (`HashKey`).
- `AnyValue::Name` and `CurrentIndex`: accessors of implementation-defined or plain data.
- `TypeHandler::operator==` and `GetApiNameFromHash`: declared in `include/tsys.h` but not defined.
- The built-in registrations done by the registry constructor, which lives in `StandardTypes.h`; that header is not part of this model. The registry starts empty, and the unused `handlers` set is not modelled.
- Registry.TypeRegistry.RegisterType: preservation of `HandlersAgree` (each handler under its own type, with a coherent table) is proved for `RegisterNewTypeOf` only, since an arbitrary handler pointer carries no such promise.
- Values.TypeId, Handlers.TypeHandler, Registry.TypeRegistry: only the built-in handler kinds (String, Bool, Int, Enum, Any, None) and the types they handle are modelled. A user-defined `GenericTypeHandler<T>` for an arbitrary host type, registered through `RegisterType<T>` and found through `GetTypeHandle<T>`, is not: a handler's kind is one of the six, so the registry holds built-in handlers only.
- NumberToStr's `catch` path: `std::to_string` on an `int` does not throw, so the current value is never returned.
- The serialisers dereference `GetTypeHandle(v)` without a null check. `SerializeValue` and `SerializeConstruction` require the value's type to be registered rather than model the crash.
- The unsigned loop counters of the vector constructor (`FromLabels` requires fewer than 2^32 labels) and of Enum's `DeserializeConstruction`, which could wrap.

## Findings

| source | as written | input that shows it | evidently intended | confidence | as-written member | corrected member |
|---|---|---|---|---|---|---|
| include/defaultTypes.h:179 | `AnyConverter` asks `CanConvertFrom(anyval.Hash())`. That wraps the `size_t` hash in a `std::any`, so it asks whether the target converts from `size_t`. | An AnyValue holding 42, converted by the String handler with current value `""`: as written `""` comes back. | Ask whether the target converts from the held value, so that `"42"` comes back. | high, not executed | Conversion.AnyConvertAsWritten, Conversion.AnyConvertAsWrittenNeverConverts, Conversion.ConvertFromAsWritten | Conversion.AnyConvert |
| src/defaultTypes.cpp:404-411 | `StrToBool` yields whether the string is empty. | `""` converts to true and `"x"` to false. | True iff the string is non-empty. | high, not executed | Conversion.StrToBoolAsWritten, Conversion.StrToBoolAsWrittenInverts, Conversion.CastAsWritten, AnyValues.ConvertEmptyStringToBool | Conversion.Cast (Conversion.StrToBoolTruthiness) |
| src/defaultTypes.cpp:224 | `ConvertTo` passes the held value as the current value of `ConvertFrom`. | An AnyValue holding an int, converted to the Enum type: `IntToEnum` any_casts the int current value to Enum and throws `bad_any_cast`. | Start from the target handler's `InitValue()`. | medium, not executed | AnyValues.AnyValue.ConvertToAsWritten, AnyValues.ConvertIntToEnumAsWrittenThrows | AnyValues.AnyValue.ConvertTo |
