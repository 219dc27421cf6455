/**
  What `remove` does to the sorted set, as a function of the set before it, and
  why the result is still a dictionary.
 */
module Removal {

  import opened Wrappers
  import opened Lexicographic
  import opened SortedSet
  import opened Encoding

  /** The longest common prefix of two strings. */
  function CommonPrefix(a: string, b: string): (p: string)
    ensures StartsWith(a, p) && StartsWith(b, p)
    ensures |p| == |a| || |p| == |b| || a[|p|] != b[|p|]
  {
    if a == [] || b == [] || a[0] != b[0] then []
    else [a[0]] + CommonPrefix(a[1..], b[1..])
  }

  /** No common prefix of `a` and `b` is longer than `CommonPrefix(a, b)`. */
  lemma {:induction false} CommonPrefixLongest(a: string, b: string, q: string)
    requires StartsWith(a, q) && StartsWith(b, q)
    ensures |q| <= |CommonPrefix(a, b)|
    ensures StartsWith(CommonPrefix(a, b), q)
  {
    if q != [] {
      assert a[0] == q[0] && b[0] == q[0];
      assert a[1..][..|q| - 1] == q[1..] && b[1..][..|q| - 1] == q[1..];
      CommonPrefixLongest(a[1..], b[1..], q[1..]);
    }
  }

  /**
    Where the backward scan of `remove` stops: the empty prefix, the prefix
    shared with the next entry, a leaf, or an entry at least as long as the word.
   */
  predicate IsBoundary(e: string, w: string, lcp: Option<string>)
  {
    |e| == 0 || lcp == Some(e) || IsLeaf(e) || |e| >= |w|
  }

  /** The highest rank below `k` that holds a boundary. */
  function NearestBoundary(s: seq<string>, k: nat, w: string, lcp: Option<string>): (r: Option<nat>)
    requires k <= |s|
    ensures r.Some? ==> r.value < k && IsBoundary(s[r.value], w, lcp)
    ensures forall i :: (if r.Some? then r.value + 1 else 0) <= i < k ==> !IsBoundary(s[i], w, lcp)
  {
    if k == 0 then None
    else if IsBoundary(s[k - 1], w, lcp) then Some(k - 1)
    else NearestBoundary(s, k - 1, w, lcp)
  }

  /** The ranks strictly between the nearest boundary below `start` and `start` are removed. */
  function Prune(s: seq<string>, start: nat, w: string, lcp: Option<string>): seq<string>
    requires start <= |s|
  {
    match NearestBoundary(s, start, w, lcp)
    case None => s
    case Some(b) => s[..b + 1] + s[start..]
  }

  /** Pruning is ZREMRANGEBYRANK from just above the boundary to just below the leaf's rank. */
  lemma PruneByRank(s: seq<string>, start: nat, w: string, lcp: Option<string>, b: nat)
    requires start <= |s| && NearestBoundary(s, start, w, lcp) == Some(b)
    ensures RemoveRange(s, b + 1, start - 1) == Prune(s, start, w, lcp)
  {
    assert RemoveRange(s, b + 1, start - 1) == s[..b + 1] + s[start..];
  }

  /** The nearest boundary is pinned down by a boundary with none above it. */
  lemma {:induction false} NearestBoundaryAt(s: seq<string>, k: nat, w: string, lcp: Option<string>, b: nat)
    requires b < k <= |s| && IsBoundary(s[b], w, lcp)
    requires forall i :: b < i < k ==> !IsBoundary(s[i], w, lcp)
    ensures NearestBoundary(s, k, w, lcp) == Some(b)
  {
    if k - 1 > b {
      NearestBoundaryAt(s, k - 1, w, lcp, b);
    }
  }

  /** Looking for the nearest boundary in a slice is looking for it in the whole, above the slice's start. */
  lemma {:induction false} NearestBoundaryInSlice(s: seq<string>, lo: nat, k: nat, j: nat, w: string, lcp: Option<string>)
    requires lo <= k <= |s| && j <= k - lo
    ensures NearestBoundary(s[lo..k], j, w, lcp) ==
      match NearestBoundary(s, lo + j, w, lcp)
      case Some(b) => if b >= lo then Some(b - lo) else None
      case None => None
  {
    if j > 0 {
      assert s[lo..k][j - 1] == s[lo + j - 1];
      NearestBoundaryInSlice(s, lo, k, j - 1, w, lcp);
    }
  }

  /** With no boundary from `lo` up to `k`, the nearest boundary below `k` is the nearest below `lo`. */
  lemma {:induction false} NearestBoundaryBelow(s: seq<string>, lo: nat, k: nat, w: string, lcp: Option<string>)
    requires lo <= k <= |s|
    ensures (NearestBoundary(s, k, w, lcp).None? || NearestBoundary(s, k, w, lcp).value < lo)
      ==> NearestBoundary(s, lo, w, lcp) == NearestBoundary(s, k, w, lcp)
  {
    if k > lo {
      NearestBoundaryBelow(s, lo, k - 1, w, lcp);
    }
  }

  /**
    Searching the window of ranks `lo` up to `k` from its top: a boundary found
    there is the nearest below `k`; none found, the nearest below `k` is the
    nearest below `lo`.
   */
  lemma WindowNearest(s: seq<string>, lo: nat, k: nat, window: seq<string>, w: string, lcp: Option<string>)
    requires lo <= k <= |s| && window == s[lo..k]
    ensures var found := NearestBoundary(window, |window|, w, lcp);
      && (found.Some? ==> NearestBoundary(s, k, w, lcp) == Some(lo + found.value))
      && (found.None? ==> NearestBoundary(s, lo, w, lcp) == NearestBoundary(s, k, w, lcp))
  {
    NearestBoundaryInSlice(s, lo, k, k - lo, w, lcp);
    NearestBoundaryBelow(s, lo, k, w, lcp);
  }

  /** With the boundary at `b` and none above it, pruning keeps ranks up to `b` and from `start`. */
  lemma PruneAbove(s: seq<string>, start: nat, w: string, lcp: Option<string>, b: nat)
    requires b < start <= |s| && IsBoundary(s[b], w, lcp)
    requires forall i :: b < i < start ==> !IsBoundary(s[i], w, lcp)
    ensures Prune(s, start, w, lcp) == s[..b + 1] + s[start..]
  {
    NearestBoundaryAt(s, start, w, lcp, b);
  }

  /**
    The common prefix of the word and the entry now at the leaf's old rank
    (the leaf's former successor); undefined when there is none or it is the
    empty string, which the source takes for no entry.
   */
  function NextCommonPrefix(s: seq<string>, start: nat, w: string): Option<string>
  {
    if start < |s| && s[start] != "" then Some(CommonPrefix(w, s[start])) else None
  }

  /**
    The sorted set after `remove` of the normalised word `w`. A word that is
    itself a prefix entry loses only its leaf; otherwise the leaf goes and so
    does the run of entries between it and the nearest boundary below it.
   */
  function RemoveWord(s: seq<string>, w: string): seq<string>
    requires Sorted(s)
  {
    if w in s then Delete(s, Leaf(w))
    else match Rank(s, Leaf(w))
      case None => s
      case Some(start) =>
        var rest := Delete(s, Leaf(w));
        Prune(rest, start, w, NextCommonPrefix(rest, start, w))
  }

  /** Pruning only deletes. */
  lemma PruneSubset(s: seq<string>, start: nat, w: string, lcp: Option<string>)
    requires start <= |s|
    ensures forall e :: e in Prune(s, start, w, lcp) ==> e in s
  {
    match NearestBoundary(s, start, w, lcp)
    case None =>
    case Some(b) =>
      var t := s[..b + 1] + s[start..];
      forall e | e in t ensures e in s {
        var m :| 0 <= m < |t| && t[m] == e;
        if m <= b {
          assert s[m] == e;
        } else {
          assert s[m + start - b - 1] == e;
        }
      }
  }

  /**
    On any sorted set: a word whose leaf is not stored leaves the set as it
    was; a word that is a prefix entry loses exactly its leaf, so the set
    shrinks by one; and in every case the word's leaf is gone and nothing is
    added.
   */
  lemma RemoveWordCases(s: seq<string>, w: string)
    requires Sorted(s)
    ensures Leaf(w) !in s ==> RemoveWord(s, w) == s
    ensures w in s ==> RemoveWord(s, w) == Delete(s, Leaf(w))
    ensures w in s && Leaf(w) in s ==> |RemoveWord(s, w)| == |s| - 1
    ensures Leaf(w) !in RemoveWord(s, w)
    ensures forall e :: e in RemoveWord(s, w) ==> e in s
  {
    var rest := Delete(s, Leaf(w));
    assert Leaf(w) !in Elems(rest);
    if w !in s {
      match Rank(s, Leaf(w))
      case None =>
      case Some(start) =>
        PruneSubset(rest, start, w, NextCommonPrefix(rest, start, w));
        forall e | e in rest ensures e in s && e != Leaf(w) {
          assert e in Elems(rest);
        }
    } else {
      forall e | e in rest ensures e in s {
        assert e in Elems(rest);
      }
    }
  }

  /** The rank-`k` entry of `s` survives the cut of ranks (b, start). */
  lemma KeptByCut(s: seq<string>, b: nat, start: nat, k: nat)
    requires b < start <= |s| && k < |s| && (k <= b || start <= k)
    ensures s[k] in s[..b + 1] + s[start..]
  {
    var t := s[..b + 1] + s[start..];
    if k <= b {
      assert t[k] == s[k];
    } else {
      assert t[k - start + b + 1] == s[k];
    }
  }

  /**
    A word `w` that is not stored itself but whose leaf would sit at rank
    `start` of `s`: its chain of prefixes is stored, entries below `start` sort
    before the leaf and the others after it.
   */
  ghost predicate LeafGap(s: seq<string>, start: nat, w: string)
  {
    && start <= |s| && |w| > 0 && w !in s && MARKER !in w
    && (forall j :: 0 <= j < |w| ==> w[..j] in s)
    && (forall i :: 0 <= i < start ==> Less(s[i], Leaf(w)))
    && (forall i :: start <= i < |s| ==> Less(Leaf(w), s[i]))
  }

  /**
    The heart of the pruning argument: no entry the scan passes over (a rank in
    the run above the nearest boundary) is a prefix of an entry at or above the
    leaf's rank. Such a prefix would be a prefix of the word and of its next
    entry, so the scan would have met their common prefix, a boundary, first.
   */
  lemma RunNotPrefixOfUpper(s: seq<string>, start: nat, w: string, b: nat, k: nat, m: nat)
    requires Dictionary(s) && LeafGap(s, start, w)
    requires b < k < start <= m < |s|
    requires forall i :: b < i < start ==> !IsBoundary(s[i], w, NextCommonPrefix(s, start, w))
    ensures !StartsWith(s[m], s[k])
  {
    var x, next := s[k], s[start];
    if StartsWith(s[m], x) {
      assert !IsBoundary(x, w, NextCommonPrefix(s, start, w));
      SharedByWordAndNext(s, start, w, k, m);
      var c := CommonPrefix(w, next);
      CommonPrefixLongest(w, next, x);
      assert |x| < |c| by {
        assert |x| == |c| ==> x == c;
      }
      var kc := CommonPrefixRank(s, start, w);
      assert StartsWith(c, x);
      PrefixLess(c, x);
      SortedRanks(s, k, kc);
      assert IsBoundary(s[kc], w, NextCommonPrefix(s, start, w));
      assert false;
    }
  }

  /**
    A prefix entry below the leaf's rank that begins an entry at or above it is
    a prefix of the word and of the entry that follows the leaf.
   */
  lemma SharedByWordAndNext(s: seq<string>, start: nat, w: string, k: nat, m: nat)
    requires Sorted(s) && LeafGap(s, start, w)
    requires k < start <= m < |s| && StartsWith(s[m], s[k]) && |s[k]| < |w|
    ensures StartsWith(w, s[k]) && StartsWith(s[start], s[k])
  {
    var x, e, next := s[k], s[m], s[start];
    assert Less(x, Leaf(w)) && Less(Leaf(w), e);
    LessAsymmetric(x, Leaf(w));
    LessAsymmetric(Leaf(w), e);
    PrefixBetween(x, Leaf(w), e);
    assert Leaf(w)[..|x|] == w[..|x|];
    SortedRanks(s, k, start);
    LessAsymmetric(x, next);
    SortedRanks(s, start, m);
    if m > start {
      LessAsymmetric(next, e);
    } else {
      LessIrreflexive(e);
    }
    PrefixBetween(x, next, e);
  }

  /**
    The common prefix of the word and its successor is stored, below the
    leaf's rank, when the successor shares a non-empty prefix with the word.
   */
  lemma CommonPrefixRank(s: seq<string>, start: nat, w: string) returns (kc: nat)
    requires Dictionary(s) && LeafGap(s, start, w) && start < |s|
    ensures kc < start && s[kc] == CommonPrefix(w, s[start])
  {
    var next := s[start];
    var c := CommonPrefix(w, next);
    if |c| == |w| {
      assert c == w;
      OnlyLeafBegins(s, w, next);
      assert Less(Leaf(w), next);
      LessIrreflexive(next);
    }
    assert c == w[..|c|];
    kc :| 0 <= kc < |s| && s[kc] == c;
    PrefixLess(Leaf(w), c);
    if kc >= start {
      LessAsymmetric(c, Leaf(w));
    }
  }

  /** An entry that survives the cut of ranks (b, start) keeps its whole chain of prefixes. */
  lemma CutKeepsPrefixes(s: seq<string>, start: nat, w: string, b: nat, m: nat)
    requires Dictionary(s) && LeafGap(s, start, w)
    requires b < start && m < |s| && (m <= b || start <= m)
    requires forall i :: b < i < start ==> !IsBoundary(s[i], w, NextCommonPrefix(s, start, w))
    ensures PrefixesStored(s[..b + 1] + s[start..], s[m])
  {
    var e := s[m];
    assert PrefixesStored(s, e);
    forall j | 0 <= j < |Stem(e)| ensures e[..j] in s[..b + 1] + s[start..] {
      var k :| 0 <= k < |s| && s[k] == e[..j];
      if b < k < start {
        assert StartsWith(e, e[..j]);
        if m <= b {
          PrefixLess(e, e[..j]);
          SortedRanks(s, k, m);
        } else {
          RunNotPrefixOfUpper(s, start, w, b, k, m);
        }
        assert false;
      }
      KeptByCut(s, b, start, k);
    }
  }

  /** Pruning the run above the nearest boundary keeps the dictionary invariant and every leaf. */
  lemma PruneKeepsDictionary(s: seq<string>, start: nat, w: string)
    requires Dictionary(s) && LeafGap(s, start, w)
    ensures Dictionary(Prune(s, start, w, NextCommonPrefix(s, start, w)))
    ensures forall e :: e in s && IsLeaf(e) ==> e in Prune(s, start, w, NextCommonPrefix(s, start, w))
    ensures forall e :: e in Prune(s, start, w, NextCommonPrefix(s, start, w)) ==> e in s
  {
    var b := PruneBoundary(s, start, w);
    var t := s[..b + 1] + s[start..];
    PrunedDictionary(s, start, w, b);
    forall e | e in s && IsLeaf(e) ensures e in t {
      var k :| 0 <= k < |s| && s[k] == e;
      KeptByCut(s, b, start, k);
    }
  }

  /** In a dictionary the backward scan always meets a boundary: at worst the empty prefix at rank 0. */
  lemma PruneBoundary(s: seq<string>, start: nat, w: string) returns (b: nat)
    requires Dictionary(s) && LeafGap(s, start, w)
    ensures b < start && s[0] == ""
    ensures Prune(s, start, w, NextCommonPrefix(s, start, w)) == s[..b + 1] + s[start..]
    ensures forall i :: b < i < start ==> !IsBoundary(s[i], w, NextCommonPrefix(s, start, w))
  {
    var lcp := NextCommonPrefix(s, start, w);
    assert w[..0] in s;
    EmptyFirst(s);
    assert Less("", Leaf(w));
    var nb := NearestBoundary(s, start, w, lcp);
    assert IsBoundary(s[0], w, lcp);
    b := nb.value;
  }

  /** Cutting out the ranks the scan passes over leaves a dictionary, and adds nothing. */
  lemma PrunedDictionary(s: seq<string>, start: nat, w: string, b: nat)
    requires Dictionary(s) && LeafGap(s, start, w) && b < start && s[0] == ""
    requires forall i :: b < i < start ==> !IsBoundary(s[i], w, NextCommonPrefix(s, start, w))
    ensures Dictionary(s[..b + 1] + s[start..])
    ensures forall e :: e in s[..b + 1] + s[start..] ==> e in s
  {
    var t := s[..b + 1] + s[start..];
    SortedCut(s, b + 1, start);
    assert t[0] == "";
    forall e | e in t
      ensures e in s && PrefixesStored(t, e) && MARKER !in Stem(e)
    {
      var m :| 0 <= m < |t| && t[m] == e;
      var m' := if m <= b then m else m + start - b - 1;
      assert s[m'] == e;
      CutKeepsPrefixes(s, start, w, b, m');
    }
  }

  /**
    `remove` keeps the dictionary invariant: the word's leaf is gone, nothing
    is added, and every other leaf (every other stored word) survives.
   */
  lemma RemovalKeepsDictionary(s: seq<string>, w: string)
    requires Dictionary(s) && |w| > 0 && MARKER !in w
    ensures Dictionary(RemoveWord(s, w))
    ensures Leaf(w) !in RemoveWord(s, w)
    ensures forall e :: e in RemoveWord(s, w) ==> e in s
    ensures forall e :: e in s && IsLeaf(e) && e != Leaf(w) ==> e in RemoveWord(s, w)
  {
    var rest := Delete(s, Leaf(w));
    LeafRemovalKeepsDictionary(s, rest, w);
    assert Elems(rest) == Elems(s) - {Leaf(w)};
    if w !in s {
      match Rank(s, Leaf(w))
      case None =>
      case Some(start) =>
        DeletedLeafGap(s, w, start);
        PruneKeepsDictionary(rest, start, w);
    }
  }

  /** Once the leaf of a word that is not a prefix entry is deleted, its rank is a leaf gap. */
  lemma DeletedLeafGap(s: seq<string>, w: string, start: nat)
    requires Dictionary(s) && |w| > 0 && MARKER !in w && w !in s
    requires Rank(s, Leaf(w)) == Some(start)
    ensures LeafGap(Delete(s, Leaf(w)), start, w)
  {
    var rest := Delete(s, Leaf(w));
    assert Elems(rest) == Elems(s) - {Leaf(w)};
    assert rest == s[..start] + s[start + 1..];
    assert PrefixesStored(s, Leaf(w));
    forall j | 0 <= j < |w| ensures w[..j] in rest {
      assert Leaf(w)[..j] == w[..j];
      assert w[..j] in Elems(s) - {Leaf(w)};
    }
    forall i | 0 <= i < start ensures Less(rest[i], Leaf(w)) {
      SortedRanks(s, i, start);
    }
    forall i | start <= i < |rest| ensures Less(Leaf(w), rest[i]) {
      assert rest[i] == s[i + 1];
      SortedRanks(s, start, i + 1);
    }
  }
}
