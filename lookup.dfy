/**
 * The reverse-lookup cache of a colour collection: a map from a packed ARGB
 * value to the index where that value first occurs. This module holds the
 * reference definition of "first occurrence", the predicate saying that a
 * cache is faithful to a sequence, and the cache updates made by the
 * collection's four mutation hooks, together with what each update keeps.
 */
module Lookup {
  import opened Wrappers
  import opened Colors

  /** The cache field: `None` when it is not built (the source's `null`). */
  type Cache = Option<map<int32, int>>

  /** The smallest index holding a colour with `ToArgb` equal to `key`, or -1. */
  function FirstIndex(s: seq<Color>, key: int32): (i: int)
    ensures -1 <= i < |s|
    ensures i >= 0 ==> ToArgb(s[i]) == key
    ensures forall j :: 0 <= j < |s| && (i < 0 || j < i) ==> ToArgb(s[j]) != key
  {
    if s == [] then -1
    else if ToArgb(s[0]) == key then 0
    else
      var i := FirstIndex(s[1..], key);
      if i < 0 then -1 else i + 1
  }

  /**
   * `m` is a complete first-occurrence map of `s`: every colour of `s` has a
   * key, and every key maps to the first index holding that value.
   */
  ghost predicate IsFirstOccurrenceMap(m: map<int32, int>, s: seq<Color>) {
    && (forall i :: 0 <= i < |s| ==> ToArgb(s[i]) in m)
    && (forall k :: k in m ==>
          && 0 <= m[k] < |s|
          && ToArgb(s[m[k]]) == k
          && forall j :: 0 <= j < m[k] ==> ToArgb(s[j]) != k)
  }

  /** The cache invariant: when the cache is built, it is faithful to the contents. */
  ghost predicate Faithful(cache: Cache, s: seq<Color>) {
    cache.Some? ==> IsFirstOccurrenceMap(cache.value, s)
  }

  /** What `Find(int)` answers from a built cache: the stored index, or -1 on a miss. */
  function Consult(m: map<int32, int>, key: int32): (r: int) {
    if key in m then m[key] else -1
  }

  /** A faithful cache answers every lookup with the first index of the key. */
  lemma ConsultFaithful(m: map<int32, int>, s: seq<Color>, key: int32)
    requires IsFirstOccurrenceMap(m, s)
    ensures Consult(m, key) == FirstIndex(s, key)
  {
  }

  /** There is only one complete first-occurrence map of a sequence. */
  lemma FirstOccurrenceMapUnique(m1: map<int32, int>, m2: map<int32, int>, s: seq<Color>)
    requires IsFirstOccurrenceMap(m1, s) && IsFirstOccurrenceMap(m2, s)
    ensures m1 == m2
  {
    forall k | k in m1 ensures k in m2 && m2[k] == m1[k] {
      assert ToArgb(s[m1[k]]) in m2;
      ConsultFaithful(m1, s, k);
      ConsultFaithful(m2, s, k);
    }
    forall k | k in m2 ensures k in m1 {
      assert ToArgb(s[m2[k]]) in m1;
    }
  }

  /** The empty map is the first-occurrence map of the empty sequence. */
  lemma EmptyMapOfEmpty()
    ensures IsFirstOccurrenceMap(map[], [])
  {
  }

  /** One step of the cache build: record `s[i]` unless its key is already present. */
  lemma BuildStep(m: map<int32, int>, s: seq<Color>, i: nat)
    requires i < |s| && IsFirstOccurrenceMap(m, s[..i])
    ensures IsFirstOccurrenceMap(if ToArgb(s[i]) in m then m else m[ToArgb(s[i]) := i], s[..i + 1])
  {
    var key := ToArgb(s[i]);
    var m' := if key in m then m else m[key := i];
    var t := s[..i + 1];
    assert t[..i] == s[..i];
    forall j | 0 <= j < |t| ensures ToArgb(t[j]) in m' {
      if j < i {
        assert t[j] == s[..i][j];
      }
    }
    forall k | k in m'
      ensures 0 <= m'[k] < |t| && ToArgb(t[m'[k]]) == k
      ensures forall j :: 0 <= j < m'[k] ==> ToArgb(t[j]) != k
    {
      if k in m {
        assert t[m[k]] == s[..i][m[k]];
        forall j | 0 <= j < m[k] ensures ToArgb(t[j]) != k {
          assert t[j] == s[..i][j];
        }
      } else {
        forall j | 0 <= j < i ensures ToArgb(t[j]) != k {
          assert t[j] == s[..i][j];
          assert ToArgb(s[..i][j]) in m;
        }
      }
    }
  }

  // ---------------------------------------------------------------------------
  // Cache updates made by the mutation hooks, as written in the source.
  // ---------------------------------------------------------------------------

  /**
   * `InsertItem`: the cache is kept, and given `key -> index`, only when it is
   * built, the insert is an append (`index == count - 1` after the insert) and
   * the key is absent; otherwise it is discarded.
   */
  function InsertedCache(cache: Cache, index: int, count: int, key: int32): (c: Cache) {
    if cache.Some? && index == count - 1 && key !in cache.value
    then Some(cache.value[key := index])
    else None
  }

  /** `RemoveItem`: the removed colour's key is evicted; no other entry changes. */
  function RemovedCache(cache: Cache, key: int32): (c: Cache) {
    if cache.Some? && key in cache.value then Some(cache.value - {key}) else cache
  }

  /**
   * `SetItem` on a changed item: the old colour's key is evicted, then the new
   * colour's key is added with `index` unless it is (still) present.
   */
  function ReplacedCache(cache: Cache, oldKey: int32, key: int32, index: int): (c: Cache) {
    if cache.None? then None
    else
      var m := if oldKey in cache.value then cache.value - {oldKey} else cache.value;
      Some(if key !in m then m[key := index] else m)
  }

  /** The cache after a run of appends, one `InsertedCache` per appended colour. */
  function AppendedCache(cache: Cache, s: seq<Color>, cs: seq<Color>): (c: Cache)
    ensures cache.None? ==> c.None?
    ensures cs == [] ==> c == cache
  {
    if cs == [] then cache
    else
      var n := |cs| - 1;
      InsertedCache(AppendedCache(cache, s, cs[..n]), |s| + n, |s| + n + 1, ToArgb(cs[n]))
  }

  /** Appending one more colour applies one more insert update. */
  lemma AppendedCacheSnoc(cache: Cache, s: seq<Color>, cs: seq<Color>, c: Color)
    ensures AppendedCache(cache, s, cs + [c])
         == InsertedCache(AppendedCache(cache, s, cs), |s| + |cs|, |s| + |cs| + 1, ToArgb(c))
  {
    assert (cs + [c])[..|cs|] == cs;
  }

  /** An insert keeps a faithful cache faithful (it keeps it only for a fresh key appended). */
  lemma InsertKeepsFaithful(cache: Cache, s: seq<Color>, index: int, c: Color)
    requires 0 <= index <= |s| && Faithful(cache, s)
    ensures Faithful(InsertedCache(cache, index, |s| + 1, ToArgb(c)), s[..index] + [c] + s[index..])
  {
    var key := ToArgb(c);
    var after := InsertedCache(cache, index, |s| + 1, key);
    if after.Some? {
      var m := cache.value;
      var t := s[..index] + [c] + s[index..];
      assert index == |s| && t == s + [c];
      forall i | 0 <= i < |t| ensures ToArgb(t[i]) in after.value {
        if i < |s| { assert ToArgb(s[i]) in m; }
      }
      forall k | k in after.value
        ensures 0 <= after.value[k] < |t| && ToArgb(t[after.value[k]]) == k
        ensures forall j :: 0 <= j < after.value[k] ==> ToArgb(t[j]) != k
      {
        if k == key {
          forall j | 0 <= j < |s| ensures ToArgb(t[j]) != k {
            assert ToArgb(s[j]) in m;
          }
        }
      }
    }
  }

  /** A run of appends keeps a faithful cache faithful. */
  lemma {:induction false} AppendKeepsFaithful(cache: Cache, s: seq<Color>, cs: seq<Color>)
    requires Faithful(cache, s)
    ensures Faithful(AppendedCache(cache, s, cs), s + cs)
  {
    if cs != [] {
      var n := |cs| - 1;
      AppendKeepsFaithful(cache, s, cs[..n]);
      var t := s + cs[..n];
      InsertKeepsFaithful(AppendedCache(cache, s, cs[..n]), t, |t|, cs[n]);
      assert t[..|t|] + [cs[n]] + t[|t|..] == s + cs;
    }
  }

  /**
   * What the as-written removal still guarantees: an entry for another colour
   * whose first occurrence lies before the removed index still answers correctly.
   */
  lemma RemoveKeepsEarlierEntries(m: map<int32, int>, s: seq<Color>, index: int, k: int32)
    requires 0 <= index < |s| && IsFirstOccurrenceMap(m, s)
    requires k in m && m[k] < index && k != ToArgb(s[index])
    ensures RemovedCache(Some(m), ToArgb(s[index])).value[k] == FirstIndex(s[..index] + s[index + 1..], k)
  {
    var t := s[..index] + s[index + 1..];
    var after := RemovedCache(Some(m), ToArgb(s[index])).value;
    assert t[m[k]] == s[m[k]];
    assert forall j :: 0 <= j < index ==> t[j] == s[j];
  }

  /**
   * The as-written replacement keeps a faithful cache faithful when neither
   * the old nor the new colour's value occurs anywhere else in the sequence.
   */
  lemma ReplaceKeepsFaithful(cache: Cache, s: seq<Color>, index: int, c: Color)
    requires 0 <= index < |s| && Faithful(cache, s)
    requires forall j :: 0 <= j < |s| && j != index ==> ToArgb(s[j]) != ToArgb(s[index]) && ToArgb(s[j]) != ToArgb(c)
    ensures Faithful(ReplacedCache(cache, ToArgb(s[index]), ToArgb(c), index), s[index := c])
  {
    if cache.Some? {
      var m := cache.value;
      var t := s[index := c];
      var oldKey, key := ToArgb(s[index]), ToArgb(c);
      assert m[oldKey] == index;
      var m' := m - {oldKey};
      assert key !in m' by {
        if key in m { assert ToArgb(s[m[key]]) == key; }
      }
      var after := m'[key := index];
      assert ReplacedCache(cache, oldKey, key, index) == Some(after);
      forall i | 0 <= i < |t| ensures ToArgb(t[i]) in after {
        if i != index { assert ToArgb(s[i]) in m; }
      }
      forall k | k in after
        ensures 0 <= after[k] < |t| && ToArgb(t[after[k]]) == k
        ensures forall j :: 0 <= j < after[k] ==> ToArgb(t[j]) != k
      {
        if k != key {
          assert m[k] != index;
          forall j | 0 <= j < m[k] ensures ToArgb(t[j]) != k {
            if j != index { assert t[j] == s[j]; }
          }
        }
      }
    }
  }

  // ---------------------------------------------------------------------------
  // Corrected cache updates: the removal and replacement rules that keep the
  // cache faithful, in the same spirit as the append-only rule of the insert.
  // ---------------------------------------------------------------------------

  /**
   * Removal that keeps the cache only when the last element is removed: its
   * entry is evicted when that element was the key's only occurrence, and the
   * cache is otherwise untouched; any other removal discards the cache.
   */
  function RemovedCacheCorrected(cache: Cache, s: seq<Color>, index: int): (c: Cache)
    requires 0 <= index < |s|
    ensures c.Some? ==> cache.Some? && index == |s| - 1
  {
    if cache.Some? && index == |s| - 1 then
      var key := ToArgb(s[index]);
      if key in cache.value && cache.value[key] == index then Some(cache.value - {key}) else cache
    else None
  }

  lemma RemoveCorrectedKeepsFaithful(cache: Cache, s: seq<Color>, index: int)
    requires 0 <= index < |s| && Faithful(cache, s)
    ensures Faithful(RemovedCacheCorrected(cache, s, index), s[..index] + s[index + 1..])
  {
    var after := RemovedCacheCorrected(cache, s, index);
    if after.Some? {
      var m := cache.value;
      var key := ToArgb(s[index]);
      var t := s[..index] + s[index + 1..];
      assert t == s[..index];
      assert key in m;
      if m[key] == index {
        // the removed element was the only occurrence of its value
        forall i | 0 <= i < |t| ensures ToArgb(t[i]) in after.value {
          assert ToArgb(s[i]) in m;
        }
        forall k | k in after.value ensures 0 <= after.value[k] < |t| {
          assert ToArgb(s[m[k]]) == k;
        }
      } else {
        // an earlier occurrence remains, and it is the one the cache records
        forall i | 0 <= i < |t| ensures ToArgb(t[i]) in after.value {
          assert ToArgb(s[i]) in m;
        }
        forall k | k in after.value ensures 0 <= after.value[k] < |t| {
          assert ToArgb(s[m[k]]) == k;
        }
      }
    }
  }

  /**
   * Replacement that keeps the cache faithful: nothing changes when the packed
   * value is the same; the cache is discarded when the replaced item was the
   * first occurrence of its value; otherwise the new value's entry becomes
   * `index` unless it already occurs earlier.
   */
  function ReplacedCacheCorrected(cache: Cache, s: seq<Color>, index: int, c: Color): (r: Cache)
    requires 0 <= index < |s|
    ensures r.Some? ==> cache.Some?
  {
    if cache.None? then None
    else
      var oldKey, key := ToArgb(s[index]), ToArgb(c);
      var m := cache.value;
      if oldKey == key then cache
      else if oldKey !in m || m[oldKey] == index then None
      else if key in m && m[key] < index then cache
      else Some(m[key := index])
  }

  lemma ReplaceCorrectedKeepsFaithful(cache: Cache, s: seq<Color>, index: int, c: Color)
    requires 0 <= index < |s| && Faithful(cache, s)
    ensures Faithful(ReplacedCacheCorrected(cache, s, index, c), s[index := c])
  {
    var after := ReplacedCacheCorrected(cache, s, index, c);
    if after.Some? {
      var m := cache.value;
      var t := s[index := c];
      var oldKey, key := ToArgb(s[index]), ToArgb(c);
      assert oldKey in m;
      if oldKey == key {
        forall k | k in m
          ensures ToArgb(t[m[k]]) == k && forall j :: 0 <= j < m[k] ==> ToArgb(t[j]) != k
        {
          assert forall j :: 0 <= j < |s| ==> ToArgb(t[j]) == ToArgb(s[j]);
        }
      } else {
        assert m[oldKey] < index;
        forall i | 0 <= i < |t| ensures ToArgb(t[i]) in after.value {
          if i != index { assert ToArgb(s[i]) in m; }
        }
        forall k | k in after.value
          ensures 0 <= after.value[k] < |t| && ToArgb(t[after.value[k]]) == k
          ensures forall j :: 0 <= j < after.value[k] ==> ToArgb(t[j]) != k
        {
          if k != key {
            forall j | 0 <= j < m[k] ensures ToArgb(t[j]) != k {
              if j == index { assert k != key; }
            }
          } else if key in m && m[key] < index {
            forall j | 0 <= j < m[key] ensures ToArgb(t[j]) != key {
              assert j != index;
            }
          } else {
            forall j | 0 <= j < index ensures ToArgb(t[j]) != key {
              assert t[j] == s[j];
            }
          }
        }
      }
    }
  }
}
