/**
  The backward scan of `remove` exactly as the source issues it, and two
  dictionaries on which it goes wrong. Each window asks ZRANGE for the ranks
  `right - 49` to `right - 1` (49 ranks) but `right` moves down by 50, so one
  rank in every 50 is never inspected; and once `right - 49` is negative
  the window is counted from the end of the set instead of being cut at
  rank 0. The model of `remove` used everywhere else (`Removal.RemoveWord`)
  scans windows of 50 ranks cut at rank 0, and the lemma
  `AsWrittenAgrees` shows the two agree whenever the first window of the
  source already reaches the boundary.
 */
module ScanAsWritten {

  import opened Wrappers
  import opened Lexicographic
  import opened SortedSet
  import opened Encoding
  import opened Removal

  /** Where the scan ends: the `left` rank it passes to ZREMRANGEBYRANK, or never. */
  datatype Scan = Found(left: int) | Spins

  /**
    The scan as written, from the window below `right`. Once `right` is at or
    below minus the size of the set every later window is empty, and the source
    keeps asking for the next one without end.
   */
  function ScanFrom(s: seq<string>, w: string, lcp: Option<string>, right: int): Scan
    decreases right + |s|
  {
    if right + |s| <= 0 then Spins
    else
      var range := Range(s, right - (RANGELEN - 1), right - 1);
      match NearestBoundary(range, |range|, w, lcp)
      case Some(i) => Found(right - |range| + i + 1)
      case None => ScanFrom(s, w, lcp, right - RANGELEN)
  }

  /** How `remove` as written ends: it answers with the set left behind, or never answers. */
  datatype Outcome = Returned(entries: seq<string>) | Hangs(entries: seq<string>)

  /** `remove` of the normalised word `w` with the scan as written. */
  function RemovalAsWritten(s: seq<string>, w: string): Outcome
    requires Sorted(s)
  {
    if w in s then Returned(Delete(s, Leaf(w)))
    else match Rank(s, Leaf(w))
      case None => Returned(s)
      case Some(start) =>
        var rest := Delete(s, Leaf(w));
        match ScanFrom(rest, w, NextCommonPrefix(rest, start, w), start)
        case Found(left) => Returned(RemoveRange(rest, left, start - 1))
        case Spins => Hangs(rest)
  }

  // ---------------------------------------------------------------------------
  // Agreement when the first window reaches the boundary

  /** The nearest boundary below `k`, found in the window from `lo` up to `k`. */
  lemma WindowBoundary(s: seq<string>, lo: nat, k: nat, w: string, lcp: Option<string>, b: nat)
    requires lo <= b < k <= |s| && NearestBoundary(s, k, w, lcp) == Some(b)
    ensures NearestBoundary(s[lo..k], |s[lo..k]|, w, lcp) == Some(b - lo)
  {
    NearestBoundaryInSlice(s, lo, k, k - lo, w, lcp);
    assert lo + (k - lo) == k;
  }

  /** The window below `right` holds a boundary: the scan ends there. */
  lemma ScanStops(s: seq<string>, w: string, lcp: Option<string>, right: int, i: nat)
    requires right + |s| > 0
    requires var range := Range(s, right - (RANGELEN - 1), right - 1);
      NearestBoundary(range, |range|, w, lcp) == Some(i)
    ensures ScanFrom(s, w, lcp, right) == Found(right - |Range(s, right - (RANGELEN - 1), right - 1)| + i + 1)
  {
  }

  /** The window below `right` holds no boundary: the scan goes on 50 ranks lower. */
  lemma ScanGoesOn(s: seq<string>, w: string, lcp: Option<string>, right: int)
    requires right + |s| > 0
    requires var range := Range(s, right - (RANGELEN - 1), right - 1);
      NearestBoundary(range, |range|, w, lcp) == None
    ensures ScanFrom(s, w, lcp, right) == ScanFrom(s, w, lcp, right - RANGELEN)
  {
  }

  /**
    When the nearest boundary below `start` lies in the first window the
    source reads, the scan as written finds it and removes the same ranks as
    the corrected scan.
   */
  lemma FirstWindowAgrees(s: seq<string>, start: nat, w: string, lcp: Option<string>, b: nat)
    requires start <= |s| && NearestBoundary(s, start, w, lcp) == Some(b)
    requires Span(|s|, start - (RANGELEN - 1), start - 1).0 <= b < Span(|s|, start - (RANGELEN - 1), start - 1).1
    ensures ScanFrom(s, w, lcp, start) == Found(b + 1)
    ensures RemoveRange(s, b + 1, start - 1) == Prune(s, start, w, lcp)
  {
    FirstWindowFinds(s, start, w, lcp, b);
    PruneByRank(s, start, w, lcp, b);
  }

  lemma FirstWindowFinds(s: seq<string>, start: nat, w: string, lcp: Option<string>, b: nat)
    requires start <= |s| && NearestBoundary(s, start, w, lcp) == Some(b)
    requires Span(|s|, start - (RANGELEN - 1), start - 1).0 <= b < Span(|s|, start - (RANGELEN - 1), start - 1).1
    ensures ScanFrom(s, w, lcp, start) == Found(b + 1)
  {
    var lo := FirstWindow(s, start, b);
    WindowBoundary(s, lo, start, w, lcp, b);
    ScanStops(s, w, lcp, start, b - lo);
  }
  /** The first window, when it holds rank `b`, is every rank from its start up to `start`. */
  lemma FirstWindow(s: seq<string>, start: nat, b: nat) returns (lo: nat)
    requires b < start <= |s|
    requires Span(|s|, start - (RANGELEN - 1), start - 1).0 <= b < Span(|s|, start - (RANGELEN - 1), start - 1).1
    ensures lo <= b && Range(s, start - (RANGELEN - 1), start - 1) == s[lo..start]
  {
    var r := Span(|s|, start - (RANGELEN - 1), start - 1);
    lo := r.0;
    assert Selects(|s|, start - (RANGELEN - 1), start - 1, b);
    assert Selects(|s|, start - (RANGELEN - 1), start - 1, start - 1);
    assert !Selects(|s|, start - (RANGELEN - 1), start - 1, start);
  }

  /** The first window of the source reaches the boundary (or no scan happens). */
  predicate FirstWindowReaches(s: seq<string>, w: string)
    requires Sorted(s)
  {
    w in s || Rank(s, Leaf(w)).None? ||
      var start := Rank(s, Leaf(w)).value;
      var rest := Delete(s, Leaf(w));
      var nb := NearestBoundary(rest, start, w, NextCommonPrefix(rest, start, w));
      && nb.Some?
      && Span(|rest|, start - (RANGELEN - 1), start - 1).0 <= nb.value
      < Span(|rest|, start - (RANGELEN - 1), start - 1).1
  }

  /** Where the first window reaches the boundary, `remove` as written is the corrected `remove`. */
  lemma AsWrittenAgrees(s: seq<string>, w: string)
    requires Sorted(s) && FirstWindowReaches(s, w)
    ensures RemovalAsWritten(s, w) == Returned(RemoveWord(s, w))
  {
    if w !in s && Rank(s, Leaf(w)).Some? {
      var start := Rank(s, Leaf(w)).value;
      var rest := Delete(s, Leaf(w));
      assert |rest| == |s| - 1;
      var lcp := NextCommonPrefix(rest, start, w);
      FirstWindowAgrees(rest, start, w, lcp, NearestBoundary(rest, start, w, lcp).value);
    }
  }

  // ---------------------------------------------------------------------------
  // Two dictionaries on which the scan as written goes wrong

  /** `n` copies of `c`. */
  function Run(c: char, n: nat): (r: string)
    ensures |r| == n && forall k :: 0 <= k < n ==> r[k] == c
  {
    seq(n, _ => c)
  }

  lemma RunPrefix(c: char, n: nat, k: nat)
    requires k <= n
    ensures Run(c, n)[..k] == Run(c, k)
  {
  }

  /** A sequence whose neighbours are in order is sorted. */
  lemma {:induction false} SortedByNeighbours(s: seq<string>)
    requires forall i :: 0 <= i < |s| - 1 ==> Less(s[i], s[i + 1])
    ensures Sorted(s)
  {
    if |s| > 1 {
      SortedByNeighbours(s[1..]);
      forall j | 1 <= j < |s| ensures Less(s[0], s[j]) {
        if j > 1 {
          assert Less(s[1..][0], s[1..][j - 1]);
          LessTransitive(s[0], s[1], s[j]);
        }
      }
      forall i, j | 0 <= i < j < |s| ensures Less(s[i], s[j]) {
        if i > 0 {
          assert Less(s[1..][i - 1], s[1..][j - 1]);
        }
      }
    }
  }

  /** The dictionary of the one word of `n` copies of `c`: its prefixes, then its leaf. */
  function ChainStore(c: char, n: nat): seq<string>
  {
    seq(n + 1, k requires 0 <= k <= n => if k < n then Run(c, k) else Leaf(Run(c, n)))
  }

  lemma ChainStoreIsDictionary(c: char, n: nat)
    requires c != MARKER && n > 0
    ensures Dictionary(ChainStore(c, n))
    ensures Elems(ChainStore(c, n)) == Additions(Run(c, n))
  {
    var s := ChainStore(c, n);
    forall i | 0 <= i < |s| - 1 ensures Less(s[i], s[i + 1]) {
      RunPrefix(c, n, i);
      RunPrefix(c, i + 1, i);
      PrefixLess(s[i + 1], s[i]);
    }
    SortedByNeighbours(s);
    assert s[0] == "";
    forall e | e in s ensures PrefixesStored(s, e) && MARKER !in Stem(e) {
      var m :| 0 <= m < |s| && s[m] == e;
      assert Stem(e) == Run(c, m);
      forall j | 0 <= j < |Stem(e)| ensures e[..j] in s {
        RunPrefix(c, m, j);
        assert s[j] == e[..j];
      }
    }
    forall e | e in Additions(Run(c, n)) ensures e in Elems(s) {
      if e != Leaf(Run(c, n)) {
        var i :| 0 <= i < n && e == Run(c, n)[..i];
        RunPrefix(c, n, i);
        assert s[i] == e;
      } else {
        assert s[n] == e;
      }
    }
    forall e | e in Elems(s) ensures e in Additions(Run(c, n)) {
      var m :| 0 <= m < |s| && s[m] == e;
      if m < n {
        RunPrefix(c, n, m);
        assert e in Prefixes(Run(c, n));
      }
    }
  }

  /** The word whose removal loses the word "a": an "a" and 24 b's. */
  function LongB(): string
  {
    "a" + Run('b', 24)
  }

  /** Rank `k` of `LostWordStore`. */
  function LostEntry(k: nat): string
  {
    if k == 0 then ""
    else if k == 1 then "a"
    else if k == 2 then Leaf("a")
    else if k < 26 then "a" + Run('b', k - 2)
    else Leaf(LongB())
  }

  /**
    The dictionary of the words "a" and `LongB()`: "", "a", "a*", the prefixes
    "ab" … "a" + 23 b's, and the long word's leaf.
   */
  function LostWordStore(): seq<string>
  {
    seq(27, k requires 0 <= k < 27 => LostEntry(k))
  }

  lemma LostEntryPrefix(k: nat, j: nat)
    requires 3 <= k < 27 && 2 <= j < |Stem(LostEntry(k))|
    ensures LostEntry(k)[..j] == LostEntry(j + 1)
  {
    var n := if k < 26 then k - 2 else 24;
    assert LostEntry(k)[..j] == "a" + Run('b', n)[..j - 1];
    RunPrefix('b', n, j - 1);
  }

  lemma LostWordStoreIsDictionary()
    ensures Dictionary(LostWordStore())
    ensures Elems(LostWordStore()) == Additions("a") + Additions(LongB())
  {
    LostWordStoreSorted();
    LostWordStoreClosed();
    LostWordStoreMembers();
  }

  lemma LostWordStoreSorted()
    ensures Sorted(LostWordStore())
  {
    var s := LostWordStore();
    forall i | 0 <= i < |s| - 1 ensures Less(s[i], s[i + 1]) {
      if i == 2 {
        assert s[3] == "ab";
      } else if 3 <= i {
        LostEntryPrefix(i + 1, |s[i]|);
        PrefixLess(s[i + 1], s[i]);
      }
    }
    SortedByNeighbours(s);
  }

  lemma LostWordStoreClosed()
    ensures Rooted(LostWordStore()) && PrefixClosed(LostWordStore()) && MarkerFree(LostWordStore())
  {
    var s := LostWordStore();
    assert s[0] == "";
    forall e | e in s ensures PrefixesStored(s, e) && MARKER !in Stem(e) {
      var m :| 0 <= m < |s| && s[m] == e;
      forall j | 0 <= j < |Stem(e)| ensures e[..j] in s {
        if j == 0 {
          assert s[0] == e[..j];
        } else if j == 1 {
          assert s[1] == e[..j];
        } else {
          LostEntryPrefix(m, j);
          assert s[j + 1] == e[..j];
        }
      }
    }
  }

  lemma LostWordStoreMembers()
    ensures Elems(LostWordStore()) == Additions("a") + Additions(LongB())
  {
    var s := LostWordStore();
    assert Prefixes("a") == {""} by {
      assert "a"[..0] == "";
      forall x | x in Prefixes("a") ensures x == "" { }
    }
    LongBPrefixesStored();
    assert s[0] == "" && s[2] == Leaf("a");
    forall e | e in Elems(s) ensures e in Additions("a") + Additions(LongB()) {
      var m :| 0 <= m < |s| && s[m] == e;
      LostEntryAdded(m);
    }
  }

  lemma LostEntryAdded(k: nat)
    requires k < 27
    ensures LostEntry(k) in Additions("a") + Additions(LongB())
  {
    var w := LongB();
    if k == 0 {
      assert w[..0] in Prefixes(w);
    } else if k == 1 {
      assert w[..1] in Prefixes(w);
      assert w[..1] == "a";
    } else if 3 <= k < 26 {
      LostEntryPrefix(26, k - 1);
      assert Leaf(w)[..k - 1] == w[..k - 1];
      assert w[..k - 1] in Prefixes(w);
    }
  }

  lemma LongBPrefixesStored()
    ensures Additions(LongB()) <= Elems(LostWordStore())
  {
    var s := LostWordStore();
    forall e | e in Additions(LongB()) ensures e in Elems(s) {
      if e != Leaf(LongB()) {
        var i :| 0 <= i < 25 && e == LongB()[..i];
        if i == 0 {
          assert s[0] == e;
        } else if i == 1 {
          assert s[1] == e;
        } else {
          LostEntryPrefix(26, i);
          assert s[i + 1] == e;
        }
      } else {
        assert s[26] == e;
      }
    }
  }

  /** `remove` of the word whose leaf is the last member, and which is not a prefix entry. */
  lemma RemoveLastWord(s: seq<string>, w: string)
    requires Sorted(s) && s != [] && s[|s| - 1] == Leaf(w) && w !in s
    ensures RemovalAsWritten(s, w) ==
      match ScanFrom(s[..|s| - 1], w, None, |s| - 1)
      case Found(left) => Returned(RemoveRange(s[..|s| - 1], left, |s| - 2))
      case Spins => Hangs(s[..|s| - 1])
    ensures RemoveWord(s, w) == Prune(s[..|s| - 1], |s| - 1, w, None)
  {
    RemoveLastLeaf(s, w);
  }

  /** In a sorted set, the last member has the last rank. */
  lemma RankOfLast(s: seq<string>)
    requires Sorted(s) && s != []
    ensures Rank(s, s[|s| - 1]) == Some(|s| - 1)
  {
    var r := Rank(s, s[|s| - 1]).value;
    SortedRanks(s, r, |s| - 1);
  }

  /** What `remove` of the last word of a set leaves before its scan. */
  lemma RemoveLastLeaf(s: seq<string>, w: string)
    requires Sorted(s) && s != [] && s[|s| - 1] == Leaf(w)
    ensures Rank(s, Leaf(w)) == Some(|s| - 1)
    ensures Delete(s, Leaf(w)) == s[..|s| - 1]
    ensures NextCommonPrefix(s[..|s| - 1], |s| - 1, w) == None
  {
    RankOfLast(s);
  }

  /** The word whose removal never answers: 25 a's. */
  function LongA(): string
  {
    Run('a', 25)
  }

  /** The shape of `ChainStore(c, n)` once its leaf is gone. */
  lemma ChainFacts(c: char, n: nat)
    requires c != MARKER && n > 0
    ensures var s := ChainStore(c, n);
      && Sorted(s) && s[n] == Leaf(Run(c, n)) && Run(c, n) !in s
      && s[..n][0] == ""
      && forall k :: 1 <= k < n ==> !IsBoundary(s[..n][k], Run(c, n), None)
  {
    var s := ChainStore(c, n);
    ChainStoreIsDictionary(c, n);
    forall k | 0 <= k < |s| ensures s[k] != Run(c, n) {
      assert |s[k]| != n;
    }
    forall k | 1 <= k < n ensures !IsBoundary(s[..n][k], Run(c, n), None) {
      assert s[..n][k] == Run(c, k);
    }
  }

  /**
    Removing the only word of `ChainStore('a', 25)` with the scan as written
    never answers: the first window, ranks 1 to 24, holds no boundary, and every
    later window lies below the start of the set.
   */
  lemma AsWrittenHangs()
    ensures Dictionary(ChainStore('a', 25)) && Leaf(LongA()) in ChainStore('a', 25)
    ensures RemovalAsWritten(ChainStore('a', 25), LongA()).Hangs?
  {
    var s := ChainStore('a', 25);
    ChainFacts('a', 25);
    RemoveLastWord(s, LongA());
    HangingScan(s[..25], LongA());
    ChainStoreIsDictionary('a', 25);
  }

  /** The corrected scan reaches the empty prefix at rank 0 and removes the whole chain. */
  lemma CorrectedRemovesChain()
    ensures Sorted(ChainStore('a', 25))
    ensures RemoveWord(ChainStore('a', 25), LongA()) == [""]
  {
    ChainRemoved('a', 25);
  }

  /** The corrected `remove` of the one word of a chain store leaves only the empty prefix. */
  lemma ChainRemoved(c: char, n: nat)
    requires c != MARKER && n > 0
    ensures Sorted(ChainStore(c, n))
    ensures RemoveWord(ChainStore(c, n), Run(c, n)) == [""]
  {
    var s := ChainStore(c, n);
    ChainFacts(c, n);
    RemoveLastWord(s, Run(c, n));
    var rest := s[..n];
    PruneAbove(rest, n, Run(c, n), None, 0);
    assert rest[..1] == [""];
  }

  lemma HangingScan(rest: seq<string>, w: string)
    requires |rest| == 25 && |w| == 25
    requires forall k :: 1 <= k < 25 ==> !IsBoundary(rest[k], w, None)
    ensures ScanFrom(rest, w, None, 25) == Spins
  {
    var first := Range(rest, -24, 24);
    assert Span(25, -24, 24) == (1, 25);
    assert first == rest[1..25];
    assert NearestBoundary(first, |first|, w, None) == None;
    ScanGoesOn(rest, w, None, 25);
  }

  /** The shape of `LostWordStore()` once the long word's leaf is gone. */
  lemma LostFacts()
    ensures var s := LostWordStore();
      && Sorted(s) && s[26] == Leaf(LongB()) && LongB() !in s
      && s[..26][0] == "" && s[..26][1] == "a" && s[..26][2] == Leaf("a")
      && forall k :: 3 <= k < 26 ==> !IsBoundary(s[..26][k], LongB(), None)
  {
    var s := LostWordStore();
    LostWordStoreSorted();
    forall k | 0 <= k < |s| ensures s[k] != LongB() {
      assert |s[k]| != 25;
    }
    forall k | 3 <= k < 26 ensures !IsBoundary(s[..26][k], LongB(), None) {
      assert s[..26][k] == "a" + Run('b', k - 2);
    }
  }

  /**
    Removing `LongB()` from `LostWordStore()` with the scan as written deletes
    ranks 1 to 25 and with them the leaf "a*": the dictionary no longer knows
    the word "a".
   */
  lemma AsWrittenLosesWord()
    ensures Dictionary(LostWordStore()) && Leaf("a") in LostWordStore()
    ensures RemovalAsWritten(LostWordStore(), LongB()) == Returned([""])
  {
    var s := LostWordStore();
    LostFacts();
    RemoveLastWord(s, LongB());
    LostScan(s[..26], LongB());
    LostWordStoreIsDictionary();
  }

  /** The corrected scan stops at the leaf "a*" and keeps the word "a". */
  lemma CorrectedKeepsWord()
    ensures Sorted(LostWordStore())
    ensures RemoveWord(LostWordStore(), LongB()) == ["", "a", "a*"]
  {
    var s := LostWordStore();
    LostFacts();
    RemoveLastWord(s, LongB());
    LostPrune(s[..26], LongB());
  }

  lemma LostPrune(rest: seq<string>, w: string)
    requires |rest| == 26 && rest[0] == "" && rest[1] == "a" && rest[2] == Leaf("a")
    requires forall k :: 3 <= k < 26 ==> !IsBoundary(rest[k], w, None)
    ensures Prune(rest, 26, w, None) == ["", "a", "a*"]
  {
    PruneAbove(rest, 26, w, None, 2);
    assert Leaf("a") == "a*";
    assert rest[..3] == [rest[0], rest[1], rest[2]];
  }

  lemma LostScan(rest: seq<string>, w: string)
    requires |rest| == 26 && |w| == 25 && rest[0] == "" && rest[1] == "a"
    requires forall k :: 3 <= k < 26 ==> !IsBoundary(rest[k], w, None)
    ensures ScanFrom(rest, w, None, 26) == Found(-25)
    ensures RemoveRange(rest, -25, 25) == [""]
  {
    // The first window, ranks 3 to 25, holds no boundary.
    var first := Range(rest, -23, 25);
    assert Span(26, -23, 25) == (3, 26);
    assert first == rest[3..26];
    assert NearestBoundary(first, |first|, w, None) == None;
    ScanGoesOn(rest, w, None, 26);
    // The next window is counted from the end of the set: ranks 0 and 1.
    var second := Range(rest, -73, -25);
    assert Span(26, -73, -25) == (0, 2);
    assert second == ["", "a"];
    assert NearestBoundary(second, 2, w, None) == Some(0);
    ScanStops(rest, w, None, -24, 0);
    assert Span(26, -25, 25) == (1, 26);
  }
}
