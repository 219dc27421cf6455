/**
  The sorted set behind a dictionary: one Redis sorted-set key whose members all
  have score 0, so that the set is a strictly increasing sequence of strings.
  Only the commands the completer issues are modelled, with the index rules of
  ZRANGE and ZREMRANGEBYRANK.
 */
module SortedSet {

  import opened Wrappers
  import opened Lexicographic

  /** The members of a sequence, as a set. */
  function Elems(s: seq<string>): set<string>
  {
    set e | e in s
  }

  /** A ZRANGE index counted from the end when negative (-1 is the last rank). */
  function Resolve(index: int, n: nat): int
  {
    if index < 0 then index + n else index
  }

  /** Rank `k` is one of those that indexes `lo`..`hi` (inclusive) select in a set of `n`. */
  predicate Selects(n: nat, lo: int, hi: int, k: int)
  {
    0 <= k < n && Resolve(lo, n) <= k <= Resolve(hi, n)
  }

  /**
    The ranks [from, to) addressed by ZRANGE / ZREMRANGEBYRANK with indexes
    `lo` and `hi`: both resolved from the end when negative, the start clamped
    to 0, the end clamped to the last rank, nothing when start > end.
   */
  function Span(n: nat, lo: int, hi: int): (r: (nat, nat))
    ensures r.0 <= r.1 <= n
    ensures forall k :: r.0 <= k < r.1 <==> Selects(n, lo, hi, k)
    ensures 0 <= lo <= hi && lo < n ==> r == (lo, Min(hi + 1, n))
    ensures 0 <= hi < lo ==> r.0 == r.1
  {
    var a := Resolve(lo, n);
    var b := Resolve(hi, n);
    var a := if a < 0 then 0 else a;
    if a > b || a >= n then (0, 0) else (a, if b >= n then n else b + 1)
  }

  function Min(a: int, b: int): int
  {
    if a < b then a else b
  }

  /** ZRANGE key lo hi */
  function Range(s: seq<string>, lo: int, hi: int): (r: seq<string>)
    ensures 0 <= lo <= hi ==> r == s[Min(lo, |s|)..Min(hi + 1, |s|)]
    ensures |r| <= |s|
  {
    var (a, b) := Span(|s|, lo, hi);
    s[a..b]
  }

  /** What ZREMRANGEBYRANK key lo hi leaves behind. */
  function RemoveRange(s: seq<string>, lo: int, hi: int): (r: seq<string>)
    ensures 0 <= hi && 0 <= lo <= hi + 1 <= |s| ==> r == s[..lo] + s[hi + 1..]
  {
    var (a, b) := Span(|s|, lo, hi);
    assert s[..a] + s[a..] == s;
    assert 0 <= lo == hi + 1 <= |s| ==> s[..lo] + s[lo..] == s;
    s[..a] + s[b..]
  }

  /** ZRANK key member */
  function Rank(s: seq<string>, member: string): (r: Option<nat>)
    ensures r.Some? ==> r.value < |s| && s[r.value] == member
    ensures r.None? <==> member !in s
  {
    if s == [] then None
    else if s[0] == member then Some(0)
    else match Rank(s[1..], member)
      case None => None
      case Some(i) => Some(i + 1)
  }

  /** The set after ZADD key 0 member. */
  function Insert(s: seq<string>, member: string): (r: seq<string>)
    requires Sorted(s)
    ensures Sorted(r) && Elems(r) == Elems(s) + {member}
    decreases |s|
  {
    if s == [] then [member]
    else if s[0] == member then s
    else if Less(member, s[0]) then
      assert Sorted([member] + s) by {
        forall j | 0 <= j < |s| ensures Less(member, s[j]) {
          if j > 0 {
            LessTransitive(member, s[0], s[j]);
          }
        }
        forall i, j | 0 <= i < j < |s| + 1 ensures Less(([member] + s)[i], ([member] + s)[j]) {
          assert ([member] + s)[j] == s[j - 1];
        }
      }
      [member] + s
    else
      var t := Insert(s[1..], member);
      LessTotal(member, s[0]);
      assert forall e :: e in t ==> Less(s[0], e) by {
        forall e | e in t ensures Less(s[0], e) {
          assert e in Elems(t);
          if e != member {
            var k :| 1 <= k < |s| && s[k] == e;
          }
        }
      }
      assert Sorted([s[0]] + t) by {
        forall i, j | 0 <= i < j < |t| + 1 ensures Less(([s[0]] + t)[i], ([s[0]] + t)[j]) {
          if i == 0 {
            assert t[j - 1] in t;
          }
        }
      }
      assert Elems(s) == {s[0]} + Elems(s[1..]) by {
        assert s == [s[0]] + s[1..];
      }
      assert Elems([s[0]] + t) == {s[0]} + Elems(t);
      [s[0]] + t
  }

  /** ZADD of a member already there leaves the set as it was. */
  lemma {:induction false} InsertPresent(s: seq<string>, member: string)
    requires Sorted(s) && member in s
    ensures Insert(s, member) == s
  {
    if s[0] != member {
      var k :| 1 <= k < |s| && s[k] == member;
      LessAsymmetric(s[0], member);
      assert s[1..][k - 1] == member;
      InsertPresent(s[1..], member);
    }
  }

  /** The set after ZREM key member. */
  function Delete(s: seq<string>, member: string): (r: seq<string>)
    requires Sorted(s)
    ensures Sorted(r) && Elems(r) == Elems(s) - {member}
    ensures Rank(s, member).Some? ==>
      r == s[..Rank(s, member).value] + s[Rank(s, member).value + 1..]
    ensures Rank(s, member).None? ==> r == s
  {
    match Rank(s, member)
    case None => s
    case Some(i) =>
      SortedCut(s, i, i + 1);
      var r := s[..i] + s[i + 1..];
      assert Elems(r) == Elems(s) - {member} by {
        forall e | e in Elems(s) - {member} ensures e in Elems(r) {
          var k :| 0 <= k < |s| && s[k] == e;
          assert k != i;
          if k < i { assert r[k] == e; } else { assert r[k - 1] == e; }
        }
        forall e | e in r ensures e != member {
          var k :| 0 <= k < |r| && r[k] == e;
          var k' := if k < i then k else k + 1;
          assert s[k'] == e;
          SortedRanks(s, k', i);
        }
      }
      r
  }

  /** One sorted-set key. */
  class Store {

    var entries: seq<string>

    ghost predicate Valid()
      reads this
    {
      Sorted(entries)
    }

    constructor ()
      ensures Valid() && entries == []
    {
      entries := [];
    }

    /** ZADD key 0 member: 1 when the member is new, 0 when it was there. */
    method ZAdd(member: string) returns (added: nat)
      requires Valid()
      modifies this
      ensures Valid()
      ensures entries == Insert(old(entries), member)
      ensures member in old(entries) ==> entries == old(entries)
      ensures added == if member in old(entries) then 0 else 1
    {
      added := if member in entries then 0 else 1;
      if member in entries {
        InsertPresent(entries, member);
      }
      entries := Insert(entries, member);
    }

    /** ZRANK key member: the member's rank, or null. */
    method ZRank(member: string) returns (rank: Option<nat>)
      ensures rank.Some? ==> rank.value < |entries| && entries[rank.value] == member
      ensures rank.None? <==> member !in entries
      ensures rank == Rank(entries, member)
    {
      rank := Rank(entries, member);
    }

    /** ZRANGE key lo hi */
    method ZRange(lo: int, hi: int) returns (items: seq<string>)
      ensures items == Range(entries, lo, hi)
    {
      items := Range(entries, lo, hi);
    }

    /** ZREM key member: 1 when the member was there, else 0. */
    method ZRem(member: string) returns (removed: nat)
      requires Valid()
      modifies this
      ensures Valid()
      ensures entries == Delete(old(entries), member)
      ensures removed == if member in old(entries) then 1 else 0
    {
      removed := if member in entries then 1 else 0;
      entries := Delete(entries, member);
    }

    /** ZREMRANGEBYRANK key lo hi: how many members went. */
    method ZRemRangeByRank(lo: int, hi: int) returns (removed: nat)
      requires Valid()
      modifies this
      ensures Valid()
      ensures entries == RemoveRange(old(entries), lo, hi)
      ensures removed == |old(entries)| - |entries|
    {
      var (a, b) := Span(|entries|, lo, hi);
      SortedCut(entries, a, b);
      removed := b - a;
      entries := RemoveRange(entries, lo, hi);
    }

    /** ZCARD key */
    method ZCard() returns (n: nat)
      ensures n == |entries|
    {
      n := |entries|;
    }

    /** DEL key: 1 when the key existed (a sorted set exists while it is non-empty). */
    method Del() returns (removed: nat)
      requires Valid()
      modifies this
      ensures Valid() && entries == []
      ensures removed == if old(entries) == [] then 0 else 1
    {
      removed := if entries == [] then 0 else 1;
      entries := [];
    }
  }
}
