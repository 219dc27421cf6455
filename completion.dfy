/**
  What `complete` answers, as a function of the sorted set, and why, on a
  dictionary, that answer is the list of every stored word beginning with the
  prefix (cut to the requested count).
 */
module Completion {

  import opened Wrappers
  import opened Lexicographic
  import opened SortedSet
  import opened Encoding

  /**
    How many completions `complete` collects for `count`: the count is checked
    only after a completion has been pushed, so a count below one still yields one.
   */
  function Limit(count: int): (n: nat)
    ensures n >= 1
    ensures count >= 1 ==> n == count
    ensures count < 1 ==> n == 1
  {
    if count < 1 then 1 else count
  }

  /** The first `n` items of `xs`, or all of them when there are fewer. */
  function Take(xs: seq<string>, n: nat): (r: seq<string>)
    ensures |r| <= n && |r| <= |xs|
    ensures |r| == n || r == xs
    ensures xs[..|r|] == r
  {
    if |xs| <= n then xs else xs[..n]
  }

  /** The completion a single entry contributes when it begins with `p`. */
  function Contribution(e: string, p: string): seq<string>
  {
    if IsLeaf(e) && StartsWith(e, p) then [Stem(e)] else []
  }

  /**
    The reference answer: every stored word whose leaf entry begins with `p`,
    in the order of the sorted set, from rank `k` on.
   */
  function CompletionsFrom(s: seq<string>, k: nat, p: string): seq<string>
    decreases |s| - k
  {
    if k >= |s| then [] else Contribution(s[k], p) + CompletionsFrom(s, k + 1, p)
  }

  /** Every stored word whose leaf entry begins with `p`, in store order. */
  function Completions(s: seq<string>, p: string): seq<string>
  {
    CompletionsFrom(s, 0, p)
  }

  /**
    What the forward scan of `complete` collects from rank `k`: the words of the
    leaves it meets before the first entry that does not begin with `p`.
   */
  function Matches(s: seq<string>, k: nat, p: string): seq<string>
    decreases |s| - k
  {
    if k >= |s| || !StartsWith(s[k], p) then []
    else Contribution(s[k], p) + Matches(s, k + 1, p)
  }

  /**
    What `complete` answers for the normalised prefix `p`: when `p` has no rank,
    or rank 0 (which the source treats as no rank), `[p]` if `p*` is stored and
    nothing otherwise; else the scan from `p`'s rank, cut to the count.
   */
  function Answer(s: seq<string>, p: string, count: int): seq<string>
  {
    var r := Rank(s, p);
    if r.None? || r.value == 0 then (if Leaf(p) in s then [p] else [])
    else Take(Matches(s, r.value, p), Limit(count))
  }

  /**
    One rank of the scan: past the end, or at an entry that does not begin with
    the prefix, it ends; otherwise the entry contributes its word if it is a
    leaf, and the scan goes on.
   */
  lemma MatchesStep(s: seq<string>, k: nat, p: string)
    ensures k >= |s| ==> Matches(s, k, p) == []
    ensures k < |s| && !StartsWith(s[k], p) ==> Matches(s, k, p) == []
    ensures k < |s| && StartsWith(s[k], p) ==> Matches(s, k, p) == Contribution(s[k], p) + Matches(s, k + 1, p)
    ensures k < |s| && StartsWith(s[k], p) && IsLeaf(s[k]) ==> Matches(s, k, p) == [Stem(s[k])] + Matches(s, k + 1, p)
    ensures k < |s| && StartsWith(s[k], p) && !IsLeaf(s[k]) ==> Matches(s, k, p) == Matches(s, k + 1, p)
  {
  }

  /**
    Where the scan of `complete` may stop: with everything there is to collect
    while still short of `n`, or with exactly `n` items collected.
   */
  lemma TakeCollected(all: seq<string>, done: seq<string>, rest: seq<string>, n: nat)
    requires done + rest == all
    requires (rest == [] && |done| < n) || |done| == n
    ensures Take(all, n) == done
  {
    assert (done + rest)[..|done|] == done;
  }

  // ---------------------------------------------------------------------------
  // The reference answer

  /** A word is a completion exactly when its leaf is stored and begins with the prefix. */
  lemma {:induction false} CompletionsFromMembers(s: seq<string>, k: nat, p: string, w: string)
    ensures w in CompletionsFrom(s, k, p) <==> exists i :: k <= i < |s| && s[i] == Leaf(w) && StartsWith(Leaf(w), p)
    decreases |s| - k
  {
    if k < |s| {
      var next := k + 1;
      CompletionsFromMembers(s, next, p, w);
      assert CompletionsFrom(s, k, p) == Contribution(s[k], p) + CompletionsFrom(s, next, p);
      if w in Contribution(s[k], p) {
        LeafOfStem(s[k]);
      }
      if exists i :: k <= i < |s| && s[i] == Leaf(w) && StartsWith(Leaf(w), p) {
        var i :| k <= i < |s| && s[i] == Leaf(w) && StartsWith(Leaf(w), p);
        if i == k {
          assert Contribution(s[k], p) == [w];
        } else {
          assert next <= i;
        }
      }
    }
  }

  lemma CompletionsMembers(s: seq<string>, p: string, w: string)
    ensures w in Completions(s, p) <==> Leaf(w) in s && StartsWith(Leaf(w), p)
  {
    CompletionsFromMembers(s, 0, p, w);
  }

  /** Ranks holding no entry that begins with `p` contribute nothing. */
  lemma {:induction false} CompletionsSkip(s: seq<string>, k: nat, m: nat, p: string)
    requires k <= m <= |s|
    requires forall i :: k <= i < m ==> !StartsWith(s[i], p)
    ensures CompletionsFrom(s, k, p) == CompletionsFrom(s, m, p)
    decreases m - k
  {
    if k < m {
      CompletionsSkip(s, k + 1, m, p);
    }
  }

  /**
    The entries beginning with `p` are contiguous from `p`'s own rank: once one
    does not begin with `p`, none after it does.
   */
  lemma BlockEnds(s: seq<string>, r: nat, j: nat, m: nat, p: string)
    requires Sorted(s) && r <= j < m < |s| && s[r] == p
    requires !StartsWith(s[j], p)
    ensures !StartsWith(s[m], p)
  {
    if StartsWith(s[m], p) {
      SortedRanks(s, r, j);
      SortedRanks(s, j, m);
      LessAsymmetric(p, s[j]);
      LessAsymmetric(s[j], s[m]);
      PrefixBetween(p, s[j], s[m]);
    }
  }

  /** From `p`'s rank on, the scan's answer is the reference answer. */
  lemma {:induction false} MatchesAreCompletions(s: seq<string>, r: nat, k: nat, p: string)
    requires Sorted(s) && r <= k <= |s| && r < |s| && s[r] == p
    ensures Matches(s, k, p) == CompletionsFrom(s, k, p)
    decreases |s| - k
  {
    if k < |s| {
      if StartsWith(s[k], p) {
        MatchesAreCompletions(s, r, k + 1, p);
      } else {
        forall m | k <= m < |s| ensures !StartsWith(s[m], p) {
          if m > k {
            BlockEnds(s, r, k, m, p);
          }
        }
        CompletionsSkip(s, k, |s|, p);
      }
    }
  }

  /** No entry below `p`'s rank begins with `p`. */
  lemma BelowRankSkipped(s: seq<string>, r: nat, p: string)
    requires Sorted(s) && r < |s| && s[r] == p
    ensures Completions(s, p) == CompletionsFrom(s, r, p)
  {
    forall i | 0 <= i < r ensures !StartsWith(s[i], p) {
      SortedRanks(s, i, r);
      if StartsWith(s[i], p) {
        StartsWithNotLess(s[i], p);
      }
    }
    CompletionsSkip(s, 0, r, p);
  }

  /**
    In a dictionary, a prefix that is not stored is completed by at most its
    own word: every leaf beginning with it is its own leaf.
   */
  lemma {:induction false} UnstoredPrefixCompletions(s: seq<string>, k: nat, p: string)
    requires Dictionary(s) && p !in s && k <= |s|
    ensures CompletionsFrom(s, k, p) == if Leaf(p) in s[k..] then [p] else []
    decreases |s| - k
  {
    if k < |s| {
      var next := k + 1;
      UnstoredPrefixCompletions(s, next, p);
      assert CompletionsFrom(s, k, p) == Contribution(s[k], p) + CompletionsFrom(s, next, p);
      assert s[k..] == [s[k]] + s[next..];
      if IsLeaf(s[k]) && StartsWith(s[k], p) {
        OnlyLeafBegins(s, p, s[k]);
        assert Leaf(p) !in s[next..] by {
          forall i | next <= i < |s| ensures s[i] != Leaf(p) {
            SortedRanks(s, k, i);
          }
        }
      }
    }
  }

  /**
    On a dictionary, `complete` answers every stored word that begins with the
    prefix, in store order, cut to the count.
   */
  lemma AnswerIsCompletions(s: seq<string>, p: string, count: int)
    requires Dictionary(s) && p != []
    ensures Answer(s, p, count) == Take(Completions(s, p), Limit(count))
  {
    var r := Rank(s, p);
    if r.Some? {
      EmptyFirst(s);
      assert r.value > 0;
      BelowRankSkipped(s, r.value, p);
      MatchesAreCompletions(s, r.value, r.value, p);
    } else {
      UnstoredPrefixCompletions(s, 0, p);
      assert s[0..] == s;
    }
  }

  /**
    A count below one still gets the first completion, because the count is
    checked only after a word has been pushed.
   */
  lemma AnswerBelowOne(s: seq<string>, p: string, count: int)
    requires Dictionary(s) && p != [] && count < 1 && Completions(s, p) != []
    ensures Answer(s, p, count) == [Completions(s, p)[0]]
  {
    AnswerIsCompletions(s, p, count);
  }

  /**
    Whatever the sorted set holds, `complete` answers only stored words whose
    leaf begins with the prefix, and never more than the count (at least one).
   */
  lemma AnswerSound(s: seq<string>, p: string, count: int, w: string)
    ensures |Answer(s, p, count)| <= Limit(count)
    ensures w in Answer(s, p, count) ==> Leaf(w) in s && StartsWith(Leaf(w), p)
  {
    var r := Rank(s, p);
    if r.Some? && r.value > 0 {
      var m := Matches(s, r.value, p);
      if w in Take(m, Limit(count)) {
        MatchesMembers(s, r.value, p, w);
      }
    }
  }

  /** A word the scan collects is stored as a leaf beginning with the prefix. */
  lemma {:induction false} MatchesMembers(s: seq<string>, k: nat, p: string, w: string)
    requires w in Matches(s, k, p)
    ensures Leaf(w) in s && StartsWith(Leaf(w), p)
    decreases |s| - k
  {
    if w in Contribution(s[k], p) {
      LeafOfStem(s[k]);
    } else {
      MatchesMembers(s, k + 1, p, w);
    }
  }
}
