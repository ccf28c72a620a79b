# CompileTimeMaps in Dafny

A model of a compile-time heterogeneous map written as C++ template
metaprogramming (`main.cpp`). The map is an ordered list of
`KeyTypePair<text, T>` bindings. Each binds a `constexpr char[]` key to a
declared type. The program has four parts:

- `getConstHash` is a polynomial string hash in 64-bit `size_t` arithmetic.
- `IsOneOf` and `IsUnique` are type-list predicates.
- `CheckUniqueness` rejects a map in which two keys share a hash or the same key array appears twice.
- `MapKeyIndex`, `GetType`, `get` and `set` resolve a key to its position and declared type, and type-check the accessors against that declaration.

Every template is a pure recursive computation, so the model is made of
Dafny functions over `seq<Binding>` and lemmas about them. A compile
error becomes an `Err` result:
- a failed `static_assert` in the resolver is `KeyNotFound` or `DuplicateAfterMatch`;
- a `set` left without a viable overload is `TypeMismatch`.

Files:
- `const_hash.dfy` (module `ConstHash`): `getConstHash`, modulo 2^64. For NUL-free text it is proved equal to a position-wise polynomial reference, reduced modulo 2^64.
- `type_lists.dfy` (module `TypeLists`): `IsOneOf` and `IsUnique`, proved equivalent to sequence membership and pairwise distinctness.
- `key_type_map.dfy` (module `KeyTypeMap`): keys, bindings and the components listed above.
- `scenarios.dfy` (module `Scenarios`): the demonstration keys and maps, and the program's `static_assert`s as lemmas, with its `get`/`set` calls and the two calls it leaves commented out.

A key is `Key(id, text)`. `id` stands for the identity of the character
array, which is what a `const char*` template argument denotes, and `text`
for its contents. Lookup (`MapKeyIndexHelper`) and the `TextHelper` half of
`CheckUniqueness` compare ids. Only the `SizeHelper` half looks at text,
through the hash. So `world` and `anotherWorld` are different keys. The
check still rejects a map holding both, because their equal texts give
equal hashes.

Three consequences of how the code is written:
- Keys are compared by array identity (main.cpp:42 and 99-103). Two arrays with equal text, as in main.cpp:131-134, are caught only through the hash. `AbsentKeysNotFound` shows that `anotherWorld` is not found in `CompileTimeMap` even though `world` is.
- `CheckUniqueness` is one boolean (main.cpp:102-103). It does not say which half failed. `NonUniqueTypeMapFails` and `OtherNonUniqueTypeMapFails` show which half fails in each case.
- Lookup works on any map, whether or not it passes `CheckUniqueness`. With a repeated key array, lookup fails with the head-match assertion (`DuplicateAfterMatch`, main.cpp:46-47). `IndexHelperSpec` and `CheckedMapResolves` state both cases.

## Model

| member | source | states |
|---|---|---|
| ConstHash.Hash | main.cpp:86-88 | the hash is a 64-bit word, and the empty text hashes to 5381 |
| ConstHash.HashIsPolynomial | main.cpp:86-88 | for NUL-free text, the hash is `5381 * 33^n + sum of code(s[i]) * 33^i`, reduced modulo 2^64 |
| ConstHash.HashStopsAtNul | main.cpp:87 | the hash reads only up to the first NUL: text after the terminator never changes it |
| TypeLists.IsOneOf | main.cpp:67-73 | `IsOneOf<F, S, T...>`: `F` equals the head or is one of the rest, and the empty list holds nothing. Its meaning, membership, is stated by `IsOneOfMeansIn` |
| TypeLists.IsUnique | main.cpp:78-84 | `IsUnique<F, T...>`: the rest is unique and the head is not one of it. Its meaning, pairwise distinctness, is stated by `IsUniqueMeansDistinct` |
| TypeLists.IsOneOfMeansIn | main.cpp:64-73 | `IsOneOf(f, xs)` holds exactly when `f` occurs in `xs` |
| TypeLists.IsUniqueMeansDistinct | main.cpp:75-84 | `IsUnique(xs)` holds exactly when the elements of `xs` are pairwise distinct |
| KeyTypeMap.IndexHelper | main.cpp:34-55 | a resolved index never exceeds the map's length, and the only failure is the duplicate assertion |
| KeyTypeMap.IndexHelperSpec | main.cpp:37-55 | the helper fails exactly when the key array occurs twice. Otherwise it returns a value below the length exactly when the key occurs, and that value is the first position with the key |
| KeyTypeMap.KeyIndex | main.cpp:57-62 | key absent gives KeyNotFound. Key occurring twice gives DuplicateAfterMatch. Key occurring exactly once gives its position, and no other binding has that key |
| KeyTypeMap.CheckUniqueness | main.cpp:93-104 | `IsUnique` over the key hashes and `IsUnique` over the key arrays. Its meaning is stated by `CheckUniquenessSpec` |
| KeyTypeMap.CheckUniquenessSpec | main.cpp:90-104 | the check passes exactly when key hashes are pairwise distinct and key arrays are pairwise distinct |
| KeyTypeMap.CheckUniquenessIgnoresTypes | main.cpp:93-104 | two maps with the same keys in the same order pass or fail together, whatever their declared types |
| KeyTypeMap.EqualTextsFailCheck | main.cpp:102 | two bindings with equal key texts make the check fail, even when their arrays differ |
| KeyTypeMap.CheckedMapHasDistinctTexts | main.cpp:102-103 | a map that passes has pairwise distinct key texts |
| KeyTypeMap.CheckedMapResolves | main.cpp:41-62 | on a map that passes, lookup never trips the duplicate assertion, and a key resolves exactly when the map holds it |
| KeyTypeMap.GetType | main.cpp:144-154 | resolves exactly when the key occurs once, and the result is the declared type of every binding with that key. Otherwise it gives the resolver's failure |
| KeyTypeMap.Get | main.cpp:157-162 | yields a value exactly when the key resolves, and that value's type is the key's declared type. Otherwise it gives the resolver's failure |
| KeyTypeMap.Decay | main.cpp:165 | `std::decay_t` of the argument type drops its `const`, `volatile` and reference qualifiers. `Set` compares the result with the declared type |
| KeyTypeMap.Set | main.cpp:164-168 | accepted exactly when the key occurs once and its declared type equals the decayed argument type. A resolved key with a different type gives TypeMismatch. A lookup failure is passed on unchanged |
| Scenarios.HelloHash | main.cpp:108 | `"hellow"` hashes to 6954181892432 |
| Scenarios.WorldHash | main.cpp:109-110 | `"world"` hashes to 210710150957 |
| Scenarios.IsHash | main.cpp:111 | `"is"` hashes to 5863809 |
| Scenarios.EmptyHash | main.cpp:112 | `"empty"` hashes to 210735340532 |
| Scenarios.CompileTimeMapIsUnique | main.cpp:116-129 | the example map passes the uniqueness check |
| Scenarios.NonUniqueTypeMapFails | main.cpp:131-134 | `{world: float, anotherWorld: true_type}` fails. Its arrays are distinct, so only the hash half catches it |
| Scenarios.OtherNonUniqueTypeMapFails | main.cpp:136-139 | `{world: float, world: true_type}` fails both the hash half and the array half |
| Scenarios.RepeatedWorldLookupFails | main.cpp:41-48 | looking up `world` in the map that binds it twice trips "type appears more than once" |
| Scenarios.GetWorldIsTrueType | main.cpp:172-173 | `get<WorldParam>()` yields a `true_type` value, and the other three keys resolve to float, double and bool |
| Scenarios.SetIsDoubleAccepted | main.cpp:174 | `set<IsParam>(5.0)` is accepted |
| Scenarios.SetIsBoolRejected | main.cpp:176 | `set<IsParam>(true)` is rejected with TypeMismatch |
| Scenarios.AbsentKeysNotFound | main.cpp:175 | `nowhere` is not found by `set` or `get`. `anotherWorld` is not found in the example map either, though its text equals `world`'s |

## Left out

- Console output of `get` and `set` (`std::cout`, main.cpp:160 and 167): I/O with no logic.
- Floating-point contents of values: `get` returns `Default(t)`, a value-initialised object of type `t`, and `set` ignores its argument's value, as the C++ does.
- C++ overload and template mechanics (partial-specialisation selection, `enable_if_t`, `std::tuple_element`): only their effect is modelled. That effect is first-match lookup and a type comparison after decay. The model does not distinguish a hard `static_assert` error from a discarded `set` overload.
- Decay: modelled only as dropping `const`, `volatile` and reference qualifiers. Array-to-pointer and function-to-pointer decay are left out, because no key is declared with such a type.
- Signedness of `char` in `static_cast<size_t>(*input)`: key texts are taken as ASCII, so each character contributes its code point. A negative `char` would sign-extend, and that is not modelled.
- Compile-time staging: "does not compile" is an `Err` result. Since every member is a pure function, re-running the check always gives the same verdict, so no separate idempotence lemma is needed.
- Key coherence: the model does not require that two `Key` values with the same `id` have the same `text`. In C++ this holds automatically, because one array has one content. No lemma depends on it.
