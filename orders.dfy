/** The requirements the C++ standard library places on a `Compare` object:
    `lt` must induce a strict weak ordering. */
module Orders {

  /** Neither element is ordered before the other. */
  predicate Equiv<T>(lt: (T, T) -> bool, a: T, b: T)
  {
    !lt(a, b) && !lt(b, a)
  }

  ghost predicate StrictWeakOrder<T(!new)>(lt: (T, T) -> bool)
  {
    && (forall a :: !lt(a, a))
    && (forall a, b, c :: lt(a, b) && lt(b, c) ==> lt(a, c))
    && (forall a, b, c :: Equiv(lt, a, b) && Equiv(lt, b, c) ==> Equiv(lt, a, c))
  }

  /** In a strict weak ordering "not less" is transitive as well. */
  lemma NotLessTransitive<T(!new)>(lt: (T, T) -> bool, a: T, b: T, c: T)
    requires StrictWeakOrder(lt)
    requires !lt(b, a) && !lt(c, b)
    ensures !lt(c, a)
  {
    if lt(a, b) {
      assert lt(c, a) && lt(a, b) ==> lt(c, b);
    } else if lt(b, c) {
      assert lt(b, c) && lt(c, a) ==> lt(b, a);
    } else {
      assert Equiv(lt, a, b) && Equiv(lt, b, c) ==> Equiv(lt, a, c);
    }
  }
}
