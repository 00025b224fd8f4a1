/** The algebraic parameter of the segment tree: a combining operation and its
    identity element.

    The C++ template receives `op` and `e` as template arguments; here they are
    the two fields of a `Monoid` value that every segment-tree operation takes.
    The laws are not checked by the tree at run time; operations whose result
    depends on them require `IsMonoid`.
 */
module Monoids {

  datatype Monoid<!S> = Monoid(op: (S, S) -> S, e: S)

  /** `op` is associative and `e` is a two-sided identity.  Commutativity is
      NOT assumed. */
  ghost predicate IsMonoid<S(!new)>(m: Monoid<S>) {
    && (forall a, b, c :: m.op(m.op(a, b), c) == m.op(a, m.op(b, c)))
    && (forall a :: m.op(m.e, a) == a)
    && (forall a :: m.op(a, m.e) == a)
  }

  /** Integer addition with identity 0: the monoid of range sums. */
  function SumMonoid(): Monoid<int> {
    Monoid((a: int, b: int) => a + b, 0)
  }

  lemma SumMonoidIsMonoid()
    ensures IsMonoid(SumMonoid())
  {
  }
}
