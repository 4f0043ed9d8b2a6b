/**
 * The collection's hash code: the exclusive-or fold of the element hash codes,
 * starting from 0. The element hash (`Color.GetHashCode`) belongs to
 * System.Drawing and is a parameter; .NET's 32-bit `int` is read as `bv32`,
 * on which `^` is the same bitwise operation.
 */
module Hashing {
  import opened Colors

  type ElementHash = Color -> bv32

  /** `Aggregate(0, (current, value) => current ^ hash(value))`, a left fold. */
  function XorFold(s: seq<Color>, hash: ElementHash): (h: bv32) {
    if s == [] then 0 else XorFold(s[..|s| - 1], hash) ^ hash(s[|s| - 1])
  }

  /** Any one element can be taken out of the fold. */
  lemma {:induction false} XorFoldRemove(s: seq<Color>, hash: ElementHash, j: nat)
    requires j < |s|
    ensures XorFold(s, hash) == XorFold(s[..j] + s[j + 1..], hash) ^ hash(s[j])
  {
    var n := |s| - 1;
    if j < n {
      XorFoldRemove(s[..n], hash, j);
      var r := s[..j] + s[j + 1..];
      assert s[..n][..j] + s[..n][j + 1..] == r[..|r| - 1];
      assert r[|r| - 1] == s[n];
      assert s[..n][j] == s[j];
    } else {
      assert s[..j] + s[j + 1..] == s[..n];
    }
  }

  lemma MultisetWithout(s: seq<Color>, j: nat)
    requires j < |s|
    ensures multiset(s[..j] + s[j + 1..]) == multiset(s) - multiset{s[j]}
  {
    assert s == s[..j] + [s[j]] + s[j + 1..];
  }

  /** The hash does not depend on the order of the elements. */
  lemma {:induction false} XorFoldPermutation(s: seq<Color>, t: seq<Color>, hash: ElementHash)
    requires multiset(s) == multiset(t)
    ensures XorFold(s, hash) == XorFold(t, hash)
  {
    if s != [] {
      var n := |s| - 1;
      var x := s[n];
      assert x in multiset(s);
      assert x in t;
      var j :| 0 <= j < |t| && t[j] == x;
      var t' := t[..j] + t[j + 1..];
      MultisetWithout(t, j);
      MultisetWithout(s, n);
      assert s[..n] + s[n + 1..] == s[..n];
      XorFoldPermutation(s[..n], t', hash);
      XorFoldRemove(t, hash, j);
    } else {
      assert |t| == |multiset(t)| == 0;
    }
  }

  /** An element hash that depends only on the channels, as the collection's equality does. */
  ghost predicate ChannelHash(hash: ElementHash) {
    forall c, d :: ToArgb(c) == ToArgb(d) ==> hash(c) == hash(d)
  }

  /** With a channel-only element hash, collections equal under `ToArgb` hash alike. */
  lemma {:induction false} EqualContentsHashAlike(s: seq<Color>, t: seq<Color>, hash: ElementHash)
    requires ChannelHash(hash) && SameArgb(s, t)
    ensures XorFold(s, hash) == XorFold(t, hash)
  {
    if s != [] {
      var n := |s| - 1;
      EqualContentsHashAlike(s[..n], t[..n], hash);
    }
  }

  /**
   * An element hash that, like System.Drawing's `Color.GetHashCode`, also looks
   * at how the colour was made, so that a known colour and the colour made
   * from its channel values hash differently.
   */
  function IdentityHash(c: Color): (h: bv32) {
    if c.identity.Known? then 1 else 0
  }

  /** Cornflower blue as a known colour, and as made from its channel values. */
  const KnownCornflowerBlue: Color := Color(255, 100, 149, 237, Known(1))
  const ArgbCornflowerBlue: Color := Color(255, 100, 149, 237, FromValue)

  /**
   * Two collections that are equal under `ToArgb` yet hash differently when the
   * element hash looks at identity: equal objects with different hash codes.
   */
  lemma IdentityHashSplitsEqualCollections()
    ensures SameArgb([KnownCornflowerBlue], [ArgbCornflowerBlue])
    ensures XorFold([KnownCornflowerBlue], IdentityHash) != XorFold([ArgbCornflowerBlue], IdentityHash)
  {
    assert [KnownCornflowerBlue][..0] == [];
    assert [ArgbCornflowerBlue][..0] == [];
  }
}
