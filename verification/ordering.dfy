/** Properties of "less than" relations. A comparator handed to a stable sort
    must be a strict weak ordering: irreflexive, transitive, and with
    transitive incomparability. */
module Ordering {

  /** Neither element ranks before the other. */
  predicate Equivalent<T>(less: (T, T) -> bool, x: T, y: T)
  {
    !less(x, y) && !less(y, x)
  }

  ghost predicate Irreflexive<T(!new)>(less: (T, T) -> bool)
  {
    forall x :: !less(x, x)
  }

  ghost predicate Transitive<T(!new)>(less: (T, T) -> bool)
  {
    forall x, y, z :: less(x, y) && less(y, z) ==> less(x, z)
  }

  ghost predicate TransitiveEquivalence<T(!new)>(less: (T, T) -> bool)
  {
    forall x, y, z :: Equivalent(less, x, y) && Equivalent(less, y, z) ==> Equivalent(less, x, z)
  }

  ghost predicate StrictWeakOrder<T(!new)>(less: (T, T) -> bool)
  {
    && Irreflexive(less)
    && Transitive(less)
    && TransitiveEquivalence(less)
  }

  /** In a strict weak ordering, an element ranked before `y` is ranked before
      everything that is not ranked before `y`. */
  lemma LessBeforeNotLess<T(!new)>(less: (T, T) -> bool, x: T, y: T, z: T)
    requires StrictWeakOrder(less)
    requires less(x, y) && !less(z, y)
    ensures less(x, z)
  {
    if !less(y, z) {
      assert Equivalent(less, z, y);
      assert Equivalent(less, x, z) ==> Equivalent(less, x, y);
    }
  }

  /** The mirror image of `LessBeforeNotLess`. */
  lemma LessAfterNotLess<T(!new)>(less: (T, T) -> bool, x: T, y: T, z: T)
    requires StrictWeakOrder(less)
    requires !less(y, x) && less(y, z)
    ensures less(x, z)
  {
    if !less(x, y) {
      assert Equivalent(less, x, y);
      assert Equivalent(less, z, x) ==> Equivalent(less, z, y);
    }
  }

  /** Ascending order on integers. */
  predicate IntLess(a: int, b: int)
  {
    a < b
  }

  lemma IntLessIsStrictWeakOrder()
    ensures StrictWeakOrder(IntLess)
  {
  }

  /** Orders pairs by their first component and, among pairs whose first
      components rank equal, by their second. */
  function ThenBy<A, B>(first: (A, A) -> bool, second: (B, B) -> bool): ((A, B), (A, B)) -> bool
  {
    (p: (A, B), q: (A, B)) => first(p.0, q.0) || (Equivalent(first, p.0, q.0) && second(p.1, q.1))
  }

  lemma ThenByIsStrictWeakOrder<A(!new), B(!new)>(first: (A, A) -> bool, second: (B, B) -> bool)
    requires StrictWeakOrder(first) && StrictWeakOrder(second)
    ensures StrictWeakOrder(ThenBy(first, second))
  {
    var both := ThenBy(first, second);
    forall p
      ensures !both(p, p)
    {
      assert !first(p.0, p.0) && !second(p.1, p.1);
    }
    forall p, q, r | both(p, q) && both(q, r)
      ensures both(p, r)
    {
      if first(p.0, q.0) && Equivalent(first, q.0, r.0) {
        LessBeforeNotLess(first, p.0, q.0, r.0);
      } else if Equivalent(first, p.0, q.0) && first(q.0, r.0) {
        LessAfterNotLess(first, p.0, q.0, r.0);
      }
    }
    forall p, q, r | Equivalent(both, p, q) && Equivalent(both, q, r)
      ensures Equivalent(both, p, r)
    {
      assert Equivalent(first, p.0, q.0) && Equivalent(second, p.1, q.1);
      assert Equivalent(first, q.0, r.0) && Equivalent(second, q.1, r.1);
    }
  }

  /** Lexicographic order on sequences, element by element, where the first
      differing element decides; when one sequence extends the other, the
      longer one ranks first. */
  predicate SeqLess<T>(less: (T, T) -> bool, a: seq<T>, b: seq<T>)
    decreases |a|
  {
    if |a| == 0 then false
    else if |b| == 0 then true
    else if less(a[0], b[0]) then true
    else if less(b[0], a[0]) then false
    else SeqLess(less, a[1..], b[1..])
  }

  lemma {:induction false} SeqLessIrreflexive<T(!new)>(less: (T, T) -> bool, a: seq<T>)
    requires Irreflexive(less)
    ensures !SeqLess(less, a, a)
    decreases |a|
  {
    if |a| > 0 {
      SeqLessIrreflexive(less, a[1..]);
    }
  }

  lemma {:induction false} SeqLessTransitive<T(!new)>(less: (T, T) -> bool, a: seq<T>, b: seq<T>, c: seq<T>)
    requires StrictWeakOrder(less)
    requires SeqLess(less, a, b) && SeqLess(less, b, c)
    ensures SeqLess(less, a, c)
    decreases |a|
  {
    if |c| > 0 {
      if less(a[0], b[0]) && !less(c[0], b[0]) {
        LessBeforeNotLess(less, a[0], b[0], c[0]);
      } else if !less(b[0], a[0]) && less(b[0], c[0]) {
        LessAfterNotLess(less, a[0], b[0], c[0]);
      } else if Equivalent(less, a[0], b[0]) && Equivalent(less, b[0], c[0]) {
        SeqLessTransitive(less, a[1..], b[1..], c[1..]);
      }
    }
  }

  lemma {:induction false} SeqLessTransitiveEquivalence<T(!new)>(less: (T, T) -> bool, a: seq<T>, b: seq<T>, c: seq<T>)
    requires StrictWeakOrder(less)
    requires Equivalent((x, y) => SeqLess(less, x, y), a, b)
    requires Equivalent((x, y) => SeqLess(less, x, y), b, c)
    ensures Equivalent((x, y) => SeqLess(less, x, y), a, c)
    decreases |a|
  {
    if |a| > 0 {
      assert Equivalent(less, a[0], b[0]) && Equivalent(less, b[0], c[0]);
      SeqLessTransitiveEquivalence(less, a[1..], b[1..], c[1..]);
    }
  }

  lemma SeqLessIsStrictWeakOrder<T(!new)>(less: (T, T) -> bool)
    requires StrictWeakOrder(less)
    ensures StrictWeakOrder((a, b) => SeqLess(less, a, b))
  {
    var seqLess := (a, b) => SeqLess(less, a, b);
    forall a
      ensures !seqLess(a, a)
    {
      SeqLessIrreflexive(less, a);
    }
    forall a, b, c | seqLess(a, b) && seqLess(b, c)
      ensures seqLess(a, c)
    {
      SeqLessTransitive(less, a, b, c);
    }
    forall a, b, c | Equivalent(seqLess, a, b) && Equivalent(seqLess, b, c)
      ensures Equivalent(seqLess, a, c)
    {
      SeqLessTransitiveEquivalence(less, a, b, c);
    }
  }

  /** Ordering values by a key inherits the key order's strict weak ordering. */
  lemma PullBack<T(!new), K(!new)>(less: (T, T) -> bool, keyLess: (K, K) -> bool, key: T -> K)
    requires StrictWeakOrder(keyLess)
    requires forall a, b :: less(a, b) == keyLess(key(a), key(b))
    ensures StrictWeakOrder(less)
  {
    forall a, b, c | Equivalent(less, a, b) && Equivalent(less, b, c)
      ensures Equivalent(less, a, c)
    {
      assert Equivalent(keyLess, key(a), key(b)) && Equivalent(keyLess, key(b), key(c));
    }
  }
}
