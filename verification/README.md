# ABI type names and the C++ projection's clock, in Dafny

This project models two small pure components of the xlang tooling and
proves properties of the model.

- **Type-name synthesis** (`type_names.dfy`, module `TypeNames`). A type
  definition's CLR display name is `Namespace.Name`. Its mangled name is a
  flat identifier that names generated ABI artefacts. A non-generic type's
  mangled name starts with the escaped namespace and a terminator. A
  generic type's starts with the marker `__F` instead. Next comes an `I`
  for a delegate, then the escaped name. Escaping replaces `.` by `_C`, `_`
  by `__` and the backtick by `_` in the standalone context. In the nested
  context, used for generic arguments, `.` becomes `__C`, `_` becomes `__z`
  and the backtick becomes `_`.
- **The clock** (`chrono.dfy`, module `Chrono`). A time point is a signed
  64-bit count of 100 ns ticks since 1601-01-01 (the FILETIME epoch). The
  clock converts it three ways:
  - to and from the unsigned raw timestamp `file_time`, by reinterpreting
    the bits;
  - to and from the two 32-bit words of a native FILETIME;
  - to and from `time_t` seconds since 1970, whose origin is
    116444736000000000 ticks.

Modelling choices:

- The template flag `IsGenericParam` is the datatype `Ctx`: `false` is
  `Standalone` and `true` is `Nested`.
- The metadata `TypeDef` is a record of namespace, name, generic parameter
  count and category.
- `int64_t`, `uint64_t` and `DWORD` are the newtypes `int64`, `uint64` and
  `uint32`.
- `time_t` is modelled as 64-bit (`int64`), as on the target platform. A
  32-bit `time_t` would truncate the seconds after 2038 and shrink the
  domain of `from_time_t`; that is not modelled.
- One tick is `NanosPerTick` = 100 ns, and `TicksPerSecond` is derived
  from it as 10^9 / 100.
- A `char` of a Dafny string stands for one byte of the source's
  `std::string`. The result of escaping is the same either way, because
  the bytes of a multi-byte UTF-8 sequence are never `.`, `_` or a
  backtick. Lengths in the escaping contracts count characters.
- The source's `int64_t` arithmetic is unchecked, and signed overflow is
  undefined in C++. So `ToTimeT` and `FromTimeT` require that their
  arithmetic does not overflow (`HasTimeT`, `HasTimePoint`). Nothing
  saturates.
- The casts between `int64_t` and `uint64_t` are written out as adding or
  subtracting 2^64.
- `duration_cast` to seconds truncates toward zero, so it is written out
  (`TicksToSeconds`) instead of using Dafny's `/`, which rounds a negative
  dividend down.
- The FILETIME split and join are written as remainder, quotient and sum
  by 2^32. Two lemmas on `bv64` show that the source's mask, shift and or
  equal the remainder, quotient and sum on `bv64`. The step from those
  `bv64` values to the `int` values used here is not a lemma. It rests on
  Dafny's unsigned semantics for `%` and `/` on `bv64`.
- The host clock read by `now` becomes a parameter of `Now`.

Properties of the code that a reader might expect otherwise:

- Mangled names are not unique. `MangledNameCollisionDot` and
  `MangledNameCollisionDelegate` exhibit two collisions.
- `to_time_t` truncates toward zero, also before 1970, so a time before
  1970 rounds toward 1970. `ToTimeT` and `ToTimeTTruncates` state this.
- Nothing saturates. Conversions that would overflow `int64_t` are
  excluded by preconditions.
- The namespace and the name may be empty. The code handles any strings,
  and so does the model.

## Model

| member | source | states |
|---|---|---|
| TypeNames.ClrName | src/tool/abi/type_names.h:8-16 | the display name is the namespace, one dot, then the name, unescaped, with length \|ns\| + \|name\| + 1 |
| TypeNames.ClrNameParts | src/tool/abi/type_names.h:8-16 | the display name has one more dot than its two parts; with the namespace length known, it determines namespace and name |
| TypeNames.EscapeChar | src/tool/abi/type_names.h:42-57 | one character's escape has no dot or backtick; it is 2 or 3 characters long for a separator and 1 otherwise; it differs from the character exactly when the character is reserved; a reserved character's escape starts with `_` |
| TypeNames.Escape | src/tool/abi/type_names.h:40-58 | an escaped string has no dot or backtick, and its length is the input's plus 1 (standalone) or 2 (nested) per dot or underscore |
| TypeNames.WriteMangledName | src/tool/abi/type_names.h:36-59 | the escaping loop leaves the existing result as a prefix and appends exactly the escape of the name |
| TypeNames.EscapeSingle | src/tool/abi/type_names.h:40-58 | escaping a one-character string gives that character's table entry |
| TypeNames.EscapeAppend | src/tool/abi/type_names.h:40-58 | escaping a concatenation concatenates the escapes |
| TypeNames.EscapeLengthBounds | src/tool/abi/type_names.h:42-57 | \|s\| <= \|escape(s)\| <= 2\|s\| standalone and <= 3\|s\| nested |
| TypeNames.EscapeIsIdentityIff | src/tool/abi/type_names.h:42-57 | escaping leaves a string unchanged if and only if it has no `.`, `_` or backtick |
| TypeNames.Terminator | src/tool/abi/type_names.h:69 | the namespace terminator is the escape of a dot in the same context |
| TypeNames.WriteTypePrefix | src/tool/abi/type_names.h:20-26 | only appends; adds exactly one character, an `I`, if and only if the category is delegate; otherwise leaves the result unchanged |
| TypeNames.WriteTypePrefixOf | src/tool/abi/type_names.h:28-31 | the prefix written for a type definition is the one for its category |
| TypeNames.Header | src/tool/abi/type_names.h:66-75 | what precedes the type prefix has no dot or backtick; for a non-generic type it is the escape of the namespace followed by a dot; for a generic type it is `__F` |
| TypeNames.MangledName | src/tool/abi/type_names.h:62-80 | the mangled name has no dot or backtick; it starts with the escaped namespace and terminator when non-generic and with `__F` when generic; it ends with the escaped name |
| TypeNames.MangledNameDelegatePrefix | src/tool/abi/type_names.h:77-78 | right after the header comes `I` and then the escaped name if and only if the type is a delegate; otherwise the escaped name follows directly |
| TypeNames.MangledNameIsEscapedClrName | src/tool/abi/type_names.h:66-78 | a non-generic mangled name is the escape of the display name, with a delegate's `I` right after the namespace's dot |
| TypeNames.MangledNameOfGeneric | src/tool/abi/type_names.h:71-78 | a generic type's mangled name is `__F`, the prefix and the escaped name, and is the same whatever the namespace |
| TypeNames.MangledNameDependsOnGenericityOnly | src/tool/abi/type_names.h:66 | only whether the generic parameter count is zero affects the mangled name |
| TypeNames.ClrNameExample | src/tool/abi/type_names.h:8-16 | `Sample.Space` and `Widget` give `Sample.Space.Widget` |
| TypeNames.MangledNameExampleNamespace | src/tool/abi/type_names.h:62-80 | class `A.B`/`C`, standalone, gives `A_CB_CC` |
| TypeNames.MangledNameExampleGeneric | src/tool/abi/type_names.h:62-80 | generic class `A.B`/``Map`2``, standalone, gives `__FMap_2` |
| TypeNames.MangledNameExampleDelegate | src/tool/abi/type_names.h:62-80 | delegate `X`/`Y`, nested, gives `X__CIY` |
| TypeNames.MangledNameExampleUnderscore | src/tool/abi/type_names.h:62-80 | class `A`/`My_Type`, standalone, gives `A_CMy__Type` |
| TypeNames.MangledNameCollisionDot | src/tool/abi/type_names.h:62-80 | standalone `X.Y`/`Z` and `X`/`Y.Z` get the same mangled name |
| TypeNames.MangledNameCollisionDelegate | src/tool/abi/type_names.h:62-80 | class `IFoo` and delegate `Foo` in one namespace get the same mangled name |
| Chrono.FromNative | src/tool/cpp/strings/base_chrono.h:64-67 | joining FILETIME words gives a value whose remainder by 2^32 is the low word and whose quotient is the high word |
| Chrono.ToNative | src/tool/cpp/strings/base_chrono.h:69-72 | the high word times 2^32 plus the low word is the value |
| Chrono.JoinSplit | src/tool/cpp/strings/base_chrono.h:64-72 | splitting a raw timestamp into words and joining them gives it back |
| Chrono.SplitJoin | src/tool/cpp/strings/base_chrono.h:64-72 | joining two words and splitting the result gives them back |
| Chrono.OrOfShiftedWordsIsSum | src/tool/cpp/strings/base_chrono.h:65 | on 64-bit words, `low \| (high << 32)` is `high * 2^32 + low` for 32-bit words |
| Chrono.MaskAndShiftAreModAndDiv | src/tool/cpp/strings/base_chrono.h:71 | on 64-bit words, `v & 0xFFFFFFFF` and `v >> 32` are the remainder and quotient by 2^32 |
| Chrono.ToFileTime | src/tool/cpp/strings/base_chrono.h:102-105 | the raw timestamp agrees with the tick count modulo 2^64 and equals it when the count is non-negative |
| Chrono.FromFileTime | src/tool/cpp/strings/base_chrono.h:107-110 | the tick count agrees with the raw value modulo 2^64 and equals it below 2^63 |
| Chrono.FileTimeRoundTrip | src/tool/cpp/strings/base_chrono.h:102-110 | to_file_time(from_file_time(v)) == v for every raw value |
| Chrono.TimePointRoundTrip | src/tool/cpp/strings/base_chrono.h:102-110 | from_file_time(to_file_time(t)) == t for every time point |
| Chrono.ToFILETIME | src/tool/cpp/strings/base_chrono.h:112-115 | the raw value agrees with the tick count modulo 2^64, equals it when non-negative, and `from_file_time` gives the time point back |
| Chrono.FromFILETIME | src/tool/cpp/strings/base_chrono.h:117-120 | the tick count agrees with the raw value modulo 2^64, equals it below 2^63, and `to_file_time` gives the raw value back |
| Chrono.FILETIMERoundTrips | src/tool/cpp/strings/base_chrono.h:112-120 | to_FILETIME and from_FILETIME are inverse to each other in both directions |
| Chrono.Now | src/tool/cpp/strings/base_chrono.h:85-90 | the time point returned converts back to exactly the host's raw timestamp |
| Chrono.TicksToSeconds | src/tool/cpp/strings/base_chrono.h:94 | the cast to seconds truncates toward zero: the result times 10^7 lies within one second of the ticks, on the side nearer zero |
| Chrono.ToTimeT | src/tool/cpp/strings/base_chrono.h:92-95 | the seconds since 1970 truncate the tick difference toward zero: at or after 1970 the time lies in [s, s+1) seconds, before 1970 in (s-1, s] |
| Chrono.FromTimeT | src/tool/cpp/strings/base_chrono.h:97-100 | the time point lies a whole number of seconds, exactly s, after the 1970 origin, and converts back without overflow |
| Chrono.FromTimeTZero | src/tool/cpp/strings/base_chrono.h:124-125 | from_time_t(0) is the 1970 origin, 116444736000000000 ticks |
| Chrono.TimeTRoundTrip | src/tool/cpp/strings/base_chrono.h:92-100 | to_time_t(from_time_t(s)) == s whenever the tick arithmetic does not overflow |
| Chrono.ToTimeTTruncates | src/tool/cpp/strings/base_chrono.h:92-100 | at or after 1970, from_time_t(to_time_t(t)) <= t < it plus one second; before 1970, t lies at or before it and after it minus one second |

## Left out

- The trait specialisations `abi<>`, `name<>` and `category<>` for
  `TimeSpan` and `DateTime` (base_chrono.h:20-48): they are compile-time
  metadata, not behaviour.
- `clock::is_steady` and the `rep`/`period` aliases: they are constants
  with no operation behind them. The tick length is the constant
  `NanosPerTick`, and `TicksPerSecond` is derived from it.
- Reading the host time in `now` (`WINRT_GetSystemTimePreciseAsFileTime`):
  it is an operating-system call, so the host's timestamp is a parameter
  of `Now`.
- The metadata reader behind `TypeDef` (`TypeNamespace`, `TypeName`,
  `GenericParam`, `get_category`): meta_reader.h and namespace_iterator.h
  are not part of this model. A type definition is a plain record.
- The `reserve` calls (type_names.h:11, 39): they are capacity hints with
  no observable effect.
- The `file_time` constructors (base_chrono.h:57-61) are the datatype
  constructor `FileTime`. The default constructor is `FileTime(0)`.
- Uniqueness of mangled names is not proved, because it does not hold.
  `MangledNameCollisionDot` and `MangledNameCollisionDelegate` show two collisions.
- Saturation on overflow is not modelled, because the source has none.
  Overflowing conversions are excluded by preconditions.
- A time point is its tick count. The separate `TimeSpan` duration
  type is not modelled; `time - time_t_epoch` is the difference of tick
  counts.
