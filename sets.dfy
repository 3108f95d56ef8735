/**
 * Cardinality facts about finite sets of names, used by the passes whose
 * recursion ends because the names not yet on the path (or not yet seen)
 * get fewer at every step.
 */
module Sets {

  /** A subset is no larger than the set containing it. */
  lemma {:induction false} SubsetCard<T>(a: set<T>, b: set<T>)
    requires a <= b
    ensures |a| <= |b|
    decreases |b|
  {
    if a != {} {
      var x :| x in a;
      SubsetCard(a - {x}, b - {x});
    }
  }

  /** Adding one name of `keys` that was not yet seen leaves fewer unseen. */
  lemma RemainderShrinks<T>(keys: set<T>, seen: set<T>, n: T)
    requires n in keys && n !in seen
    ensures |keys - (seen + {n})| < |keys - seen|
  {
    assert keys - seen == (keys - (seen + {n})) + {n};
  }

  /** Seeing more never leaves more unseen. */
  lemma RemainderNoLarger<T>(keys: set<T>, seen: set<T>, more: set<T>)
    requires seen <= more
    ensures |keys - more| <= |keys - seen|
  {
    SubsetCard(keys - more, keys - seen);
  }
}
