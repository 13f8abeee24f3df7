/**
 * The order on store keys that the aggregator sorts its cache by
 * (`#sortByKeys`, src/main.ts:194-214): keys of different lengths compare by
 * their length difference; keys of equal length compare segment by segment and
 * the first segment that differs decides.
 */
module KeyOrdering {
  import opened Types

  /**
   * Comparison of two key segments. The source uses `localeCompare`, whose
   * collation depends on the host's locale data; it is modelled here as
   * lexicographic comparison of characters. Unlike `localeCompare`, which
   * ties distinct but canonically equivalent strings, this is 0 only on
   * identical strings: the model excludes ties between distinct ids (see the
   * `localeCompare` line under "Left out" in README.md).
   */
  function SegmentCompare(a: string, b: string): (r: int)
    ensures r == -1 || r == 0 || r == 1
  {
    if |a| == 0 then (if |b| == 0 then 0 else -1)
    else if |b| == 0 then 1
    else if a[0] < b[0] then -1
    else if b[0] < a[0] then 1
    else SegmentCompare(a[1..], b[1..])
  }

  lemma {:induction false} SegmentCompareZero(a: string, b: string)
    ensures SegmentCompare(a, b) == 0 <==> a == b
  {
    if |a| > 0 && |b| > 0 && a[0] == b[0] {
      SegmentCompareZero(a[1..], b[1..]);
      assert a == [a[0]] + a[1..] && b == [b[0]] + b[1..];
    }
  }

  lemma {:induction false} SegmentCompareFlip(a: string, b: string)
    ensures SegmentCompare(b, a) == -SegmentCompare(a, b)
  {
    if |a| > 0 && |b| > 0 && a[0] == b[0] {
      SegmentCompareFlip(a[1..], b[1..]);
    }
  }

  lemma {:induction false} SegmentCompareTrans(a: string, b: string, c: string)
    requires SegmentCompare(a, b) < 0 && SegmentCompare(b, c) < 0
    ensures SegmentCompare(a, c) < 0
  {
    if |a| > 0 && |b| > 0 && |c| > 0 && a[0] == b[0] && b[0] == c[0] {
      SegmentCompareTrans(a[1..], b[1..], c[1..]);
    }
  }

  /** The non-strict order is transitive as well. */
  lemma SegmentCompareLeTrans(a: string, b: string, c: string)
    requires SegmentCompare(a, b) <= 0 && SegmentCompare(b, c) <= 0
    ensures SegmentCompare(a, c) <= 0
    ensures SegmentCompare(a, b) < 0 || SegmentCompare(b, c) < 0 ==> SegmentCompare(a, c) < 0
  {
    SegmentCompareZero(a, b);
    SegmentCompareZero(b, c);
    if SegmentCompare(a, b) < 0 && SegmentCompare(b, c) < 0 {
      SegmentCompareTrans(a, b, c);
    }
  }

  /** `#sortByKeys` applied to the two keys it builds. */
  function Compare(a: Key, b: Key): (r: int)
    ensures |a| != |b| ==> r == |a| - |b|
    ensures |a| == |b| ==> r == -1 || r == 0 || r == 1
  {
    if |a| != |b| then |a| - |b| else CompareFrom(a, b, 0)
  }

  /** The segment loop of `#sortByKeys`, from segment `i` on. */
  function CompareFrom(a: Key, b: Key, i: nat): (r: int)
    requires |a| == |b| && i <= |a|
    ensures r == -1 || r == 0 || r == 1
    decreases |a| - i
  {
    if i == |a| then 0
    else
      var o := SegmentCompare(a[i], b[i]);
      if o < 0 then -1 else if o > 0 then 1 else CompareFrom(a, b, i + 1)
  }

  /** Segments that agree between `i` and `j` do not influence the result. */
  lemma {:induction false} CompareFromSkip(a: Key, b: Key, i: nat, j: nat)
    requires |a| == |b| && i <= j <= |a|
    requires a[i..j] == b[i..j]
    ensures CompareFrom(a, b, i) == CompareFrom(a, b, j)
    decreases j - i
  {
    if i < j {
      assert a[i] == a[i..j][0] == b[i..j][0] == b[i];
      SegmentCompareZero(a[i], b[i]);
      assert a[i + 1..j] == a[i..j][1..];
      CompareFromSkip(a, b, i + 1, j);
    }
  }

  /** Equal-length keys: the first segment that differs decides, as -1 or 1. */
  lemma CompareFirstDifference(a: Key, b: Key, i: nat)
    requires |a| == |b| && i < |a|
    requires a[..i] == b[..i] && a[i] != b[i]
    ensures Compare(a, b) == SegmentCompare(a[i], b[i]) != 0
  {
    assert a[0..i] == a[..i];
    assert b[0..i] == b[..i];
    CompareFromSkip(a, b, 0, i);
    SegmentCompareZero(a[i], b[i]);
  }

  lemma {:induction false} CompareFromZero(a: Key, b: Key, i: nat)
    requires |a| == |b| && i <= |a|
    ensures CompareFrom(a, b, i) == 0 <==> a[i..] == b[i..]
    decreases |a| - i
  {
    if i < |a| {
      SegmentCompareZero(a[i], b[i]);
      CompareFromZero(a, b, i + 1);
      assert a[i..] == [a[i]] + a[i + 1..] && b[i..] == [b[i]] + b[i + 1..];
    }
  }

  /** Equal-length keys compare as 0 exactly when they are equal. */
  lemma CompareZero(a: Key, b: Key)
    requires |a| == |b|
    ensures Compare(a, b) == 0 <==> a == b
  {
    CompareFromZero(a, b, 0);
    assert a[0..] == a && b[0..] == b;
  }

  lemma CompareSelf(a: Key)
    ensures Compare(a, a) == 0
  {
    CompareZero(a, a);
  }

  /** Swapping the operands negates the result. */
  lemma {:induction false} CompareFromFlip(a: Key, b: Key, i: nat)
    requires |a| == |b| && i <= |a|
    ensures CompareFrom(b, a, i) == -CompareFrom(a, b, i)
    decreases |a| - i
  {
    if i < |a| {
      SegmentCompareFlip(a[i], b[i]);
      CompareFromFlip(a, b, i + 1);
    }
  }

  lemma CompareFlip(a: Key, b: Key)
    ensures Compare(b, a) == -Compare(a, b)
  {
    if |a| == |b| {
      CompareFromFlip(a, b, 0);
    }
  }

  lemma {:induction false} CompareFromTrans(a: Key, b: Key, c: Key, i: nat)
    requires |a| == |b| == |c| && i <= |a|
    requires CompareFrom(a, b, i) < 0 && CompareFrom(b, c, i) < 0
    ensures CompareFrom(a, c, i) < 0
    decreases |a| - i
  {
    var o1, o2 := SegmentCompare(a[i], b[i]), SegmentCompare(b[i], c[i]);
    SegmentCompareZero(a[i], b[i]);
    SegmentCompareZero(b[i], c[i]);
    if o1 < 0 && o2 < 0 {
      SegmentCompareTrans(a[i], b[i], c[i]);
    } else if o1 == 0 && o2 == 0 {
      CompareFromTrans(a, b, c, i + 1);
    }
  }

  /** The key order is transitive, so `#sortByKeys` is a consistent comparator. */
  lemma CompareTrans(a: Key, b: Key, c: Key)
    requires Compare(a, b) < 0 && Compare(b, c) < 0
    ensures Compare(a, c) < 0
  {
    if |a| == |b| == |c| {
      CompareFromTrans(a, b, c, 0);
    }
  }

  /** Under a shared namespace prefix only the ids decide the order. */
  lemma CompareSharedPrefix(prefix: Key, x: string, y: string)
    ensures Compare(KeyOf(prefix, x), KeyOf(prefix, y)) == SegmentCompare(x, y)
  {
    var a, b := KeyOf(prefix, x), KeyOf(prefix, y);
    SegmentCompareZero(x, y);
    if x == y {
      CompareSelf(a);
    } else {
      CompareFirstDifference(a, b, |prefix|);
    }
  }
}
