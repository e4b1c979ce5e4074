/**
 The order on keys. Keys are `std::string` values compared with `operator<`,
 which is lexicographic over bytes read as `unsigned char`: the first
 differing byte decides, and a proper prefix is smaller than the longer
 string. Here a key is a Dafny `string`, a sequence of Unicode scalar
 values, compared by code point. For keys that are UTF-8 text the two
 orders agree, since UTF-8 preserves code-point order under unsigned byte
 comparison.
 Dafny's own `<` on sequences means "proper prefix", so the order is defined
 here and shown to be a strict total order, which is all a binary search
 tree needs of it.
 */
module StringOrder {

  /** `a < b` for `std::string`. */
  predicate Less(a: string, b: string)
  {
    if |a| == 0 || |b| == 0 then |a| < |b|
    else if a[0] != b[0] then a[0] < b[0]
    else Less(a[1..], b[1..])
  }

  lemma {:induction false} LessIrreflexive(a: string)
    ensures !Less(a, a)
  {
    if |a| > 0 {
      LessIrreflexive(a[1..]);
    }
  }

  lemma {:induction false} LessTransitive(a: string, b: string, c: string)
    requires Less(a, b) && Less(b, c)
    ensures Less(a, c)
  {
    if |a| > 0 && |b| > 0 && |c| > 0 && a[0] == b[0] && b[0] == c[0] {
      LessTransitive(a[1..], b[1..], c[1..]);
    }
  }

  lemma LessAsymmetric(a: string, b: string)
    requires Less(a, b)
    ensures !Less(b, a)
  {
    if Less(b, a) {
      LessTransitive(a, b, a);
      LessIrreflexive(a);
    }
  }

  /** Any two distinct strings are ordered one way or the other. */
  lemma {:induction false} LessTotal(a: string, b: string)
    ensures a == b || Less(a, b) || Less(b, a)
  {
    if |a| > 0 && |b| > 0 && a[0] == b[0] {
      LessTotal(a[1..], b[1..]);
      if a[1..] == b[1..] {
        assert a == [a[0]] + a[1..];
        assert b == [b[0]] + b[1..];
      }
    }
  }
}
