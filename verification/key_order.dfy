/**
  The key type of the tree and its ordering.

  The tree is generic in its key; the only instantiation that carries data is the
  grade book, whose keys are `std::string`. Strings compare lexicographically,
  character by character, with a proper prefix ordered before its extensions.
  The tree itself only ever asks "is a < b?" and "is a == b?", so every result
  about the tree rests on `Less` being a strict total order, which is proved here.
 */
module KeyOrder {

  type Key = string

  /** Lexicographic "strictly less than" on strings. */
  predicate Less(a: Key, b: Key)
    decreases |a|
  {
    |b| > 0 && (|a| == 0 || a[0] < b[0] || (a[0] == b[0] && Less(a[1..], b[1..])))
  }

  lemma {:induction false} LessIrreflexive(a: Key)
    ensures !Less(a, a)
    decreases |a|
  {
    if |a| > 0 {
      LessIrreflexive(a[1..]);
    }
  }

  lemma {:induction false} LessTransitive(a: Key, b: Key, c: Key)
    requires Less(a, b) && Less(b, c)
    ensures Less(a, c)
    decreases |a|
  {
    if |a| > 0 && a[0] == b[0] && b[0] == c[0] {
      LessTransitive(a[1..], b[1..], c[1..]);
    }
  }

  /** Any two distinct keys are ordered one way or the other. */
  lemma {:induction false} LessTotal(a: Key, b: Key)
    requires a != b
    ensures Less(a, b) || Less(b, a)
    decreases |a|
  {
    if |a| > 0 && |b| > 0 && a[0] == b[0] {
      assert a == [a[0]] + a[1..];
      assert b == [b[0]] + b[1..];
      LessTotal(a[1..], b[1..]);
    }
  }

  lemma LessAsymmetric(a: Key, b: Key)
    requires Less(a, b)
    ensures !Less(b, a)
  {
    if Less(b, a) {
      LessTransitive(a, b, a);
      LessIrreflexive(a);
    }
  }

  /** a < b <= c implies a < c, where "b <= c" is written !Less(c, b). */
  lemma LessThenAtMost(a: Key, b: Key, c: Key)
    requires Less(a, b) && !Less(c, b)
    ensures Less(a, c)
  {
    if b != c {
      LessTotal(b, c);
      LessTransitive(a, b, c);
    }
  }
}
