/** The compile-time map: bindings of keys to declared types, the uniqueness
    check over them, key-to-index resolution and the typed accessors.
    A compile error raised by a `static_assert` or by a failed overload is a
    `Failure` result. */
module KeyTypeMap {
  import opened ConstHash
  import opened TypeLists

  /** The declared types used as map values; a type, never an instance. */
  datatype TypeTag = Float | TrueType | Double | Bool

  /** A `constexpr char[]` key: `id` is the identity of the array (the address
      a `const char*` template argument denotes), `text` its contents. */
  datatype Key = Key(id: nat, text: string)

  /** `KeyTypePair<text, T>`: one key bound to one declared type. */
  datatype Binding = Binding(key: Key, declared: TypeTag)

  /** `std::tuple<KeyTypePair<…>…>`: an ordered list of bindings. */
  type Map = seq<Binding>

  /** `KeyTypePair<text, Map>` used as the accessor's template argument. */
  datatype Param = Param(key: Key, tuple: Map)

  datatype Failure =
    | KeyNotFound          // "type does not appear in tuple"
    | DuplicateAfterMatch  // "type appears more than once in tuple"
    | TypeMismatch         // no viable `set`: the value type is not the declared type

  datatype Result<T> = Ok(value: T) | Err(failure: Failure)

  /** Some binding of `m` has the array `k` as its key. */
  predicate Has(m: Map, k: Key)
  {
    exists i :: 0 <= i < |m| && m[i].key.id == k.id
  }

  /** At least two bindings of `m` have the array `k` as their key. */
  predicate Repeated(m: Map, k: Key)
  {
    exists i, j :: 0 <= i < j < |m| && m[i].key.id == k.id && m[j].key.id == k.id
  }

  /** `MapKeyIndexHelper`: the position of the first binding whose key is `k`,
      or the length of the map if there is none. On a match at the head it
      asserts that the rest does not contain `k` again. */
  function IndexHelper(k: Key, m: Map): (r: Result<nat>)
    ensures r.Ok? ==> r.value <= |m|
    ensures r.Err? ==> r.failure == DuplicateAfterMatch
  {
    if |m| == 0 then Ok(0)
    else if m[0].key.id == k.id then
      if IndexHelper(k, m[1..]) == Ok(|m| - 1) then Ok(0) else Err(DuplicateAfterMatch)
    else
      match IndexHelper(k, m[1..])
      case Ok(v) => Ok(1 + v)
      case Err(e) => Err(e)
  }

  lemma HasTail(m: Map, k: Key)
    requires |m| > 0
    ensures Has(m, k) <==> m[0].key.id == k.id || Has(m[1..], k)
  {
  }

  lemma RepeatedTail(m: Map, k: Key)
    requires |m| > 0
    ensures Repeated(m, k) <==> (m[0].key.id == k.id && Has(m[1..], k)) || Repeated(m[1..], k)
  {
  }

  /** What the resolver computes, stated without its recursion: it fails exactly
      when `k` occurs twice; otherwise it reaches `|m|` exactly when `k` is
      absent, and a smaller value is the first position holding `k`. */
  lemma {:induction false} IndexHelperSpec(k: Key, m: Map)
    ensures IndexHelper(k, m).Err? <==> Repeated(m, k)
    ensures IndexHelper(k, m).Ok? ==> (IndexHelper(k, m).value < |m| <==> Has(m, k))
    ensures IndexHelper(k, m).Ok? && IndexHelper(k, m).value < |m| ==>
      var v := IndexHelper(k, m).value;
      m[v].key.id == k.id && forall i :: 0 <= i < v ==> m[i].key.id != k.id
  {
    if |m| > 0 {
      var t := m[1..];
      IndexHelperSpec(k, t);
      HasTail(m, k);
      RepeatedTail(m, k);
      var r := IndexHelper(k, m);
      match IndexHelper(k, t)
      case Ok(v) =>
        if m[0].key.id != k.id {
          forall i | 0 <= i < r.value ensures m[i].key.id != k.id {
            if i > 0 {
              assert m[i] == t[i - 1];
            }
          }
        }
      case Err(_) =>
    }
  }

  /** `MapKeyIndex`: the resolved position, rejected when it is the length of the map. */
  function KeyIndex(k: Key, m: Map): (r: Result<nat>)
    ensures r.Ok? <==> Has(m, k) && !Repeated(m, k)
    ensures r == Err(KeyNotFound) <==> !Has(m, k)
    ensures r == Err(DuplicateAfterMatch) <==> Repeated(m, k)
    ensures r.Ok? ==> r.value < |m| && m[r.value].key.id == k.id
    ensures r.Ok? ==> forall i :: 0 <= i < |m| && i != r.value ==> m[i].key.id != k.id
  {
    IndexHelperSpec(k, m);
    assert Repeated(m, k) ==> Has(m, k);
    match IndexHelper(k, m)
    case Err(e) => Err(e)
    case Ok(v) => if v < |m| then Ok(v) else Err(KeyNotFound)
  }

  /** The hash of every key, in map order (the `SizeHelper<getConstHash(text)>...` pack). */
  function Hashes(m: Map): (hs: seq<nat>)
    ensures |hs| == |m|
    ensures forall i :: 0 <= i < |m| ==> hs[i] == Hash(m[i].key.text)
  {
    seq(|m|, i requires 0 <= i < |m| => Hash(m[i].key.text))
  }

  /** The identity of every key, in map order (the `TextHelper<text>...` pack). */
  function Ids(m: Map): (ids: seq<nat>)
    ensures |ids| == |m|
    ensures forall i :: 0 <= i < |m| ==> ids[i] == m[i].key.id
  {
    seq(|m|, i requires 0 <= i < |m| => m[i].key.id)
  }

  /** The keys alone, without their declared types. */
  function Keys(m: Map): (ks: seq<Key>)
    ensures |ks| == |m|
    ensures forall i :: 0 <= i < |m| ==> ks[i] == m[i].key
  {
    seq(|m|, i requires 0 <= i < |m| => m[i].key)
  }

  /** `CheckUniqueness`: all key hashes are unique and all key arrays are unique. */
  predicate CheckUniqueness(m: Map)
  {
    IsUnique(Hashes(m)) && IsUnique(Ids(m))
  }

  /** The check passes exactly when no two bindings share a hash and no two share a key array. */
  lemma CheckUniquenessSpec(m: Map)
    ensures CheckUniqueness(m) <==>
      (forall i, j :: 0 <= i < j < |m| ==> Hash(m[i].key.text) != Hash(m[j].key.text)) &&
      (forall i, j :: 0 <= i < j < |m| ==> m[i].key.id != m[j].key.id)
  {
    IsUniqueMeansDistinct(Hashes(m));
    IsUniqueMeansDistinct(Ids(m));
  }

  /** Declared types play no part in the check: maps with the same keys pass or fail together. */
  lemma CheckUniquenessIgnoresTypes(m1: Map, m2: Map)
    requires Keys(m1) == Keys(m2)
    ensures CheckUniqueness(m1) == CheckUniqueness(m2)
  {
    assert |m1| == |Keys(m1)|;
    assert forall i :: 0 <= i < |m1| ==> m1[i].key == Keys(m1)[i] == m2[i].key;
    assert Hashes(m1) == Hashes(m2);
    assert Ids(m1) == Ids(m2);
  }

  /** Two bindings whose key texts are equal, even from distinct arrays, fail the check. */
  lemma EqualTextsFailCheck(m: Map, i: nat, j: nat)
    requires i < j < |m| && m[i].key.text == m[j].key.text
    ensures !CheckUniqueness(m)
  {
    CheckUniquenessSpec(m);
  }

  /** A map that passes the check has pairwise distinct key texts, so no key
      repeats by content either. */
  lemma CheckedMapHasDistinctTexts(m: Map)
    requires CheckUniqueness(m)
    ensures forall i, j :: 0 <= i < j < |m| ==> m[i].key.text != m[j].key.text
  {
    CheckUniquenessSpec(m);
  }

  /** On a map that passes the check the duplicate assertion never fires:
      a key resolves exactly when it is in the map. */
  lemma CheckedMapResolves(m: Map, k: Key)
    requires CheckUniqueness(m)
    ensures KeyIndex(k, m) != Err(DuplicateAfterMatch)
    ensures KeyIndex(k, m).Ok? <==> Has(m, k)
  {
    CheckUniquenessSpec(m);
  }

  /** `GetType<KeyTypePair<text, Map>>::Type`: the declared type of the binding at the resolved index. */
  function GetType(p: Param): (r: Result<TypeTag>)
    ensures r.Ok? <==> Has(p.tuple, p.key) && !Repeated(p.tuple, p.key)
    ensures r.Err? ==> r.failure == if Has(p.tuple, p.key) then DuplicateAfterMatch else KeyNotFound
    ensures r.Ok? ==> forall i :: 0 <= i < |p.tuple| && p.tuple[i].key.id == p.key.id ==>
      p.tuple[i].declared == r.value
  {
    match KeyIndex(p.key, p.tuple)
    case Ok(i) => Ok(p.tuple[i].declared)
    case Err(e) => Err(e)
  }

  /** A value-initialised object `T{}`: only its type is modelled. */
  datatype Value = Default(typ: TypeTag)

  /** `get<Param>()`: a default value of the declared type of the key. */
  function Get(p: Param): (r: Result<Value>)
    ensures r.Ok? <==> Has(p.tuple, p.key) && !Repeated(p.tuple, p.key)
    ensures r.Err? ==> r.failure == if Has(p.tuple, p.key) then DuplicateAfterMatch else KeyNotFound
    ensures r.Ok? ==> forall i :: 0 <= i < |p.tuple| && p.tuple[i].key.id == p.key.id ==>
      r.value.typ == p.tuple[i].declared
  {
    match GetType(p)
    case Ok(t) => Ok(Default(t))
    case Err(e) => Err(e)
  }

  /** Qualifiers that `std::decay_t` discards from an argument type. */
  datatype Qualifier = Const | Volatile | LValueRef | RValueRef

  /** The type of the argument given to `set`: a declared type with qualifiers. */
  datatype ArgType = ArgType(base: TypeTag, qualifiers: set<Qualifier>)

  /** `std::decay_t` on the types of this model: the qualifiers are dropped. */
  function Decay(a: ArgType): TypeTag
  {
    a.base
  }

  /** `set<Param>(value)`: accepted when the decayed argument type is the
      declared type of the key; the key must resolve first. */
  function Set(p: Param, arg: ArgType): (r: Result<()>)
    ensures r.Ok? <==> (Has(p.tuple, p.key) && !Repeated(p.tuple, p.key) &&
      forall i :: 0 <= i < |p.tuple| && p.tuple[i].key.id == p.key.id ==> p.tuple[i].declared == Decay(arg))
    ensures r == Err(TypeMismatch) <==> GetType(p).Ok? && GetType(p).value != Decay(arg)
    ensures GetType(p).Err? ==> r == Err(GetType(p).failure)
  {
    match GetType(p)
    case Ok(t) => if Decay(arg) == t then Ok(()) else Err(TypeMismatch)
    case Err(e) => Err(e)
  }
}
