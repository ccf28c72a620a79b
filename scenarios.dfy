/** The keys, maps and compile-time assertions of the demonstration program,
    each an instance of the general lemmas. */
module Scenarios {
  import opened ConstHash
  import opened TypeLists
  import opened KeyTypeMap

  // The key arrays; `world` and `anotherWorld` are distinct arrays with the same text.
  const helloKey: Key := Key(0, "hellow")
  const worldKey: Key := Key(1, "world")
  const anotherWorldKey: Key := Key(2, "world")
  const isKey: Key := Key(3, "is")
  const emptyKey: Key := Key(4, "empty")
  const nowhereKey: Key := Key(5, "nowhere")

  const CompileTimeMap: Map :=
    [Binding(helloKey, Float), Binding(worldKey, TrueType), Binding(isKey, Double), Binding(emptyKey, Bool)]

  const HelloParam: Param := Param(helloKey, CompileTimeMap)
  const WorldParam: Param := Param(worldKey, CompileTimeMap)
  const IsParam: Param := Param(isKey, CompileTimeMap)
  const EmptyParam: Param := Param(emptyKey, CompileTimeMap)
  const NoWhereParam: Param := Param(nowhereKey, CompileTimeMap)

  const NonUniqueTypeMap: Map := [Binding(worldKey, Float), Binding(anotherWorldKey, TrueType)]

  const OtherNonUniqueTypeMap: Map := [Binding(worldKey, Float), Binding(worldKey, TrueType)]

  lemma NoWrap(x: nat)
    requires x < WORD
    ensures x % WORD == x
  {
  }

  /** The hash of `"hellow"`, computed character by character; it does not wrap. */
  lemma HelloHash()
    ensures Hash("hellow") == 6954181892432
  {
    HashCons('w', "");
    NoWrap(119 + 33 * 5381);
    assert "w" == ['w'] + "";
    HashCons('o', "w");
    NoWrap(111 + 33 * 177692);
    assert "ow" == ['o'] + "w";
    HashCons('l', "ow");
    NoWrap(108 + 33 * 5863947);
    assert "low" == ['l'] + "ow";
    HashCons('l', "low");
    NoWrap(108 + 33 * 193510359);
    assert "llow" == ['l'] + "low";
    HashCons('e', "llow");
    NoWrap(101 + 33 * 6385841955);
    assert "ellow" == ['e'] + "llow";
    HashCons('h', "ellow");
    NoWrap(104 + 33 * 210732784616);
    assert "hellow" == ['h'] + "ellow";
  }

  /** The hash of `"world"`, computed character by character; it does not wrap. */
  lemma WorldHash()
    ensures Hash("world") == 210710150957
  {
    HashCons('d', "");
    NoWrap(100 + 33 * 5381);
    assert "d" == ['d'] + "";
    HashCons('l', "d");
    NoWrap(108 + 33 * 177673);
    assert "ld" == ['l'] + "d";
    HashCons('r', "ld");
    NoWrap(114 + 33 * 5863317);
    assert "rld" == ['r'] + "ld";
    HashCons('o', "rld");
    NoWrap(111 + 33 * 193489575);
    assert "orld" == ['o'] + "rld";
    HashCons('w', "orld");
    NoWrap(119 + 33 * 6385156086);
    assert "world" == ['w'] + "orld";
  }

  /** The hash of `"is"`, computed character by character; it does not wrap. */
  lemma IsHash()
    ensures Hash("is") == 5863809
  {
    HashCons('s', "");
    NoWrap(115 + 33 * 5381);
    assert "s" == ['s'] + "";
    HashCons('i', "s");
    NoWrap(105 + 33 * 177688);
    assert "is" == ['i'] + "s";
  }

  /** The hash of `"empty"`, computed character by character; it does not wrap. */
  lemma EmptyHash()
    ensures Hash("empty") == 210735340532
  {
    HashCons('y', "");
    NoWrap(121 + 33 * 5381);
    assert "y" == ['y'] + "";
    HashCons('t', "y");
    NoWrap(116 + 33 * 177694);
    assert "ty" == ['t'] + "y";
    HashCons('p', "ty");
    NoWrap(112 + 33 * 5864018);
    assert "pty" == ['p'] + "ty";
    HashCons('m', "pty");
    NoWrap(109 + 33 * 193512706);
    assert "mpty" == ['m'] + "pty";
    HashCons('e', "mpty");
    NoWrap(101 + 33 * 6385919407);
    assert "empty" == ['e'] + "mpty";
  }

  /** The hash pack the check builds from the example map. */
  lemma CompileTimeMapHashes()
    ensures Hashes(CompileTimeMap) == [6954181892432, 210710150957, 5863809, 210735340532]
  {
    var hs := Hashes(CompileTimeMap);
    HelloHash();
    assert hs[0] == Hash(helloKey.text);
    WorldHash();
    assert hs[1] == Hash(worldKey.text);
    IsHash();
    assert hs[2] == Hash(isKey.text);
    EmptyHash();
    assert hs[3] == Hash(emptyKey.text);
  }

  /** The identity pack the check builds from the example map. */
  lemma CompileTimeMapIds()
    ensures Ids(CompileTimeMap) == [0, 1, 3, 4]
  {
  }

  /** `static_assert(CheckUniqueness<CompileTimeMap>::value)`. */
  lemma CompileTimeMapIsUnique()
    ensures CheckUniqueness(CompileTimeMap)
  {
    CompileTimeMapHashes();
    CompileTimeMapIds();
    var hs: seq<nat> := [6954181892432, 210710150957, 5863809, 210735340532];
    var ids: seq<nat> := [0, 1, 3, 4];
    assert PairwiseDistinct(hs);
    assert PairwiseDistinct(ids);
    IsUniqueMeansDistinct(hs);
    IsUniqueMeansDistinct(ids);
  }

  /** `static_assert(!CheckUniqueness<NonUniqueTypeMap>::value)`: the two arrays
      are distinct, so only the hash check catches the shared text. */
  lemma NonUniqueTypeMapFails()
    ensures !CheckUniqueness(NonUniqueTypeMap)
    ensures IsUnique(Ids(NonUniqueTypeMap))
    ensures !IsUnique(Hashes(NonUniqueTypeMap))
  {
    EqualTextsFailCheck(NonUniqueTypeMap, 0, 1);
    IsUniqueMeansDistinct(Ids(NonUniqueTypeMap));
  }

  /** `static_assert(!CheckUniqueness<OtherNonUniqueTypeMap>::value)`: the same
      array bound twice fails both halves of the check. */
  lemma OtherNonUniqueTypeMapFails()
    ensures !CheckUniqueness(OtherNonUniqueTypeMap)
    ensures !IsUnique(Ids(OtherNonUniqueTypeMap))
    ensures !IsUnique(Hashes(OtherNonUniqueTypeMap))
  {
    IsUniqueMeansDistinct(Ids(OtherNonUniqueTypeMap));
    IsUniqueMeansDistinct(Hashes(OtherNonUniqueTypeMap));
  }

  /** Looking `world` up in the map that binds it twice trips the duplicate assertion. */
  lemma RepeatedWorldLookupFails()
    ensures KeyIndex(worldKey, OtherNonUniqueTypeMap) == Err(DuplicateAfterMatch)
  {
    assert OtherNonUniqueTypeMap[0].key.id == worldKey.id && OtherNonUniqueTypeMap[1].key.id == worldKey.id;
  }

  /** `get<WorldParam>()` returns a `std::true_type`, and every key of the map resolves to its type. */
  lemma GetWorldIsTrueType()
    ensures Get(WorldParam) == Ok(Default(TrueType))
    ensures GetType(HelloParam) == Ok(Float)
    ensures GetType(IsParam) == Ok(Double)
    ensures GetType(EmptyParam) == Ok(Bool)
  {
    assert CompileTimeMap[0].key.id == helloKey.id;
    assert CompileTimeMap[1].key.id == worldKey.id;
    assert CompileTimeMap[2].key.id == isKey.id;
    assert CompileTimeMap[3].key.id == emptyKey.id;
  }

  /** `set<IsParam>(5.0)` is accepted: a `double` for a key declared `double`. */
  lemma SetIsDoubleAccepted()
    ensures Set(IsParam, ArgType(Double, {})) == Ok(())
  {
    assert CompileTimeMap[2].key.id == isKey.id;
  }

  /** `set<IsParam>(true)` has no viable overload: `bool` is not `double`. */
  lemma SetIsBoolRejected()
    ensures Set(IsParam, ArgType(Bool, {})) == Err(TypeMismatch)
  {
    assert CompileTimeMap[2].key.id == isKey.id;
  }

  /** `nowhere` is never bound in the map, and neither is `anotherWorld`, whose
      text equals that of `world`: lookup is by array, not by text. */
  lemma AbsentKeysNotFound()
    ensures Set(NoWhereParam, ArgType(Double, {})) == Err(KeyNotFound)
    ensures Get(NoWhereParam) == Err(KeyNotFound)
    ensures KeyIndex(anotherWorldKey, CompileTimeMap) == Err(KeyNotFound)
  {
  }
}
