/**
  The order of a sorted set whose members all carry the score 0: members compare
  byte by byte (memcmp of their UTF-8 encoding), which is the code-point order
  on the characters of the strings.
 */
module Lexicographic {

  /** `a` sorts strictly before `b`. */
  predicate Less(a: string, b: string)
    decreases |a|
  {
    b != [] && (a == [] || a[0] < b[0] || (a[0] == b[0] && Less(a[1..], b[1..])))
  }

  /** `s` begins with `p`: its first `|p|` characters are `p`. */
  predicate StartsWith(s: string, p: string)
  {
    |p| <= |s| && s[..|p|] == p
  }

  /** Members of a sorted set, in rank order: strictly increasing, hence distinct. */
  predicate Sorted(s: seq<string>)
  {
    forall i, j :: 0 <= i < j < |s| ==> Less(s[i], s[j])
  }

  lemma {:induction false} LessIrreflexive(a: string)
    ensures !Less(a, a)
  {
    if a != [] {
      LessIrreflexive(a[1..]);
    }
  }

  lemma {:induction false} LessTransitive(a: string, b: string, c: string)
    requires Less(a, b) && Less(b, c)
    ensures Less(a, c)
  {
    if a != [] && a[0] == b[0] && b[0] == c[0] {
      LessTransitive(a[1..], b[1..], c[1..]);
    }
  }

  lemma LessAsymmetric(a: string, b: string)
    requires Less(a, b)
    ensures !Less(b, a)
  {
    if Less(b, a) {
      LessTransitive(a, b, a);
      LessIrreflexive(a);
    }
  }

  /** Any two distinct strings are ordered one way or the other. */
  lemma {:induction false} LessTotal(a: string, b: string)
    ensures a == b || Less(a, b) || Less(b, a)
  {
    if a != [] && b != [] && a[0] == b[0] {
      LessTotal(a[1..], b[1..]);
      if a[1..] == b[1..] {
        assert a == [a[0]] + a[1..] && b == [b[0]] + b[1..];
      }
    }
  }

  /** A proper prefix sorts before the strings it begins. */
  lemma {:induction false} PrefixLess(s: string, p: string)
    requires StartsWith(s, p) && |p| < |s|
    ensures Less(p, s)
  {
    if p != [] {
      assert s[0] == p[0];
      PrefixLess(s[1..], p[1..]);
    }
  }

  /** A string never sorts before one of its prefixes. */
  lemma {:induction false} StartsWithNotLess(s: string, p: string)
    requires StartsWith(s, p)
    ensures !Less(s, p)
  {
    if p != [] {
      assert s[0] == p[0];
      StartsWithNotLess(s[1..], p[1..]);
    }
  }

  /**
    Strings beginning with `x` form one contiguous block of the order: whatever
    sorts between `x` and a string that begins with `x` begins with `x` too.
   */
  lemma {:induction false} PrefixBetween(x: string, y: string, z: string)
    requires StartsWith(z, x) && !Less(y, x) && !Less(z, y)
    ensures StartsWith(y, x)
  {
    if x != [] {
      assert z[0] == x[0];
      assert y != [] && y[0] == x[0];
      assert StartsWith(z[1..], x[1..]);
      PrefixBetween(x[1..], y[1..], z[1..]);
      assert y[..|x|] == [y[0]] + y[1..][..|x| - 1];
    }
  }

  /** In a sorted sequence, rank order and string order agree. */
  lemma SortedRanks(s: seq<string>, i: nat, j: nat)
    requires Sorted(s) && i < |s| && j < |s|
    ensures Less(s[i], s[j]) <==> i < j
    ensures s[i] == s[j] <==> i == j
  {
    LessIrreflexive(s[i]);
    if j < i {
      LessAsymmetric(s[j], s[i]);
    }
  }

  /** Cutting a block out of a sorted sequence leaves it sorted. */
  lemma SortedCut(s: seq<string>, a: nat, b: nat)
    requires Sorted(s) && a <= b <= |s|
    ensures Sorted(s[..a] + s[b..])
  {
    var t := s[..a] + s[b..];
    forall i, j | 0 <= i < j < |t|
      ensures Less(t[i], t[j])
    {
      var i' := if i < a then i else i + (b - a);
      var j' := if j < a then j else j + (b - a);
      assert t[i] == s[i'] && t[j] == s[j'];
    }
  }
}
