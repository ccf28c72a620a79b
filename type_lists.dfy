/** The variadic type-list predicates `IsOneOf` and `IsUnique`, over a list
    of values compared with `==` (the model of `std::is_same`). */
module TypeLists {

  /** `IsOneOf<F, S, T...>`: `F` is the same as the head or is one of the rest. */
  predicate IsOneOf<T(==)>(f: T, xs: seq<T>)
  {
    |xs| > 0 && (f == xs[0] || IsOneOf(f, xs[1..]))
  }

  /** `IsUnique<F, T...>`: the rest is unique and `F` is not one of it. */
  predicate IsUnique<T(==)>(xs: seq<T>)
  {
    |xs| == 0 || (IsUnique(xs[1..]) && !IsOneOf(xs[0], xs[1..]))
  }

  /** No two positions of the list hold equal elements. */
  predicate PairwiseDistinct<T(==)>(xs: seq<T>)
  {
    forall i, j :: 0 <= i < j < |xs| ==> xs[i] != xs[j]
  }

  lemma {:induction false} IsOneOfMeansIn<T>(f: T, xs: seq<T>)
    ensures IsOneOf(f, xs) <==> f in xs
  {
    if |xs| > 0 {
      IsOneOfMeansIn(f, xs[1..]);
      assert xs == [xs[0]] + xs[1..];
    }
  }

  lemma {:induction false} IsUniqueMeansDistinct<T>(xs: seq<T>)
    ensures IsUnique(xs) <==> PairwiseDistinct(xs)
  {
    if |xs| > 0 {
      var rest := xs[1..];
      IsUniqueMeansDistinct(rest);
      IsOneOfMeansIn(xs[0], rest);
      if IsUnique(xs) {
        forall i, j | 0 <= i < j < |xs| ensures xs[i] != xs[j] {
          if i == 0 {
            assert xs[j] == rest[j - 1];
          } else {
            assert xs[i] == rest[i - 1] && xs[j] == rest[j - 1];
          }
        }
      }
      if PairwiseDistinct(xs) {
        assert PairwiseDistinct(rest) by {
          forall i, j | 0 <= i < j < |rest| ensures rest[i] != rest[j] {
            assert rest[i] == xs[i + 1] && rest[j] == xs[j + 1];
          }
        }
        assert xs[0] !in rest by {
          forall j | 0 <= j < |rest| ensures rest[j] != xs[0] {
            assert rest[j] == xs[j + 1];
          }
        }
      }
    }
  }
}
