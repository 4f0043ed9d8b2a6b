/**
 * The sort orders of the collection. The three perceptual comparisons
 * (brightness, hue, value) belong to a colour-space library that is not part
 * of this model, so each is a parameter, required only to be a total preorder.
 */
module Ordering {
  import opened Colors

  /** A .NET `Comparison<Color>`: negative, zero or positive. */
  type Comparison = (Color, Color) -> int

  /** The recognised values of the sort-order enumeration, and any other value cast to it. */
  datatype SortOrder = Brightness | Hue | Value | Unrecognised(raw: int)

  /** The comparisons the three recognised sort orders select. */
  datatype Comparers = Comparers(brightness: Comparison, hue: Comparison, value: Comparison)

  /** "at most": total and transitive, as a sort needs its comparison to be. */
  ghost predicate TotalPreorder(cmp: Comparison) {
    && (forall x, y :: cmp(x, y) <= 0 || cmp(y, x) <= 0)
    && (forall x, y, z :: cmp(x, y) <= 0 && cmp(y, z) <= 0 ==> cmp(x, z) <= 0)
  }

  ghost predicate ComparersValid(cs: Comparers) {
    TotalPreorder(cs.brightness) && TotalPreorder(cs.hue) && TotalPreorder(cs.value)
  }

  /** Every element is at most every later element. */
  ghost predicate SortedBy(s: seq<Color>, cmp: Comparison) {
    forall i, j :: 0 <= i < j < |s| ==> cmp(s[i], s[j]) <= 0
  }

  /** Inserting `x` before the first element that is not at most `x` keeps a sequence sorted. */
  lemma InsertSorted(t: seq<Color>, x: Color, p: nat, cmp: Comparison)
    requires TotalPreorder(cmp) && SortedBy(t, cmp) && p <= |t|
    requires forall j :: 0 <= j < p ==> cmp(t[j], x) <= 0
    requires p < |t| ==> cmp(t[p], x) > 0
    ensures SortedBy(t[..p] + [x] + t[p..], cmp)
  {
    var u := t[..p] + [x] + t[p..];
    forall i, j | 0 <= i < j < |u| ensures cmp(u[i], u[j]) <= 0 {
      if j < p {
        assert u[i] == t[i] && u[j] == t[j];
      } else if j == p {
        assert u[i] == t[i];
      } else if i < p {
        assert u[i] == t[i] && u[j] == t[j - 1];
      } else if i == p {
        assert cmp(x, t[p]) <= 0;
        assert u[j] == t[j - 1];
        if j - 1 > p { assert cmp(t[p], t[j - 1]) <= 0; }
      } else {
        assert u[i] == t[i - 1] && u[j] == t[j - 1];
      }
    }
  }

  lemma MultisetInsert(t: seq<Color>, x: Color, p: nat)
    requires p <= |t|
    ensures multiset(t[..p] + [x] + t[p..]) == multiset(t) + multiset{x}
  {
    assert t == t[..p] + t[p..];
  }

  /**
   * The in-place sort of the scratch list (`List<Color>.Sort`), stood in for by
   * an insertion sort. Only what `List<T>.Sort` promises is stated: the result
   * is a permutation of the input, in non-decreasing order. Stability is not
   * stated, because `List<T>.Sort` is not stable.
   */
  method SortColors(s: seq<Color>, cmp: Comparison) returns (t: seq<Color>)
    requires TotalPreorder(cmp)
    ensures multiset(t) == multiset(s)
    ensures SortedBy(t, cmp)
  {
    t := [];
    var i := 0;
    while i < |s|
      invariant 0 <= i <= |s|
      invariant multiset(t) == multiset(s[..i])
      invariant SortedBy(t, cmp)
    {
      var x := s[i];
      var p := 0;
      while p < |t| && cmp(t[p], x) <= 0
        invariant 0 <= p <= |t|
        invariant forall j :: 0 <= j < p ==> cmp(t[j], x) <= 0
      {
        p := p + 1;
      }
      InsertSorted(t, x, p, cmp);
      MultisetInsert(t, x, p);
      assert s[..i + 1] == s[..i] + [x];
      t := t[..p] + [x] + t[p..];
      i := i + 1;
    }
    assert s[..i] == s;
  }
}
