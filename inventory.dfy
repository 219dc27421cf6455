/**
  What `leaves` and `statistics` report about the sorted set: its leaf entries,
  and the counts and character totals of its leaf and prefix entries.
 */
module Inventory {

  import opened Lexicographic
  import opened Encoding

  /** The leaf entries, marker kept, in store order. */
  function LeafEntries(s: seq<string>): seq<string>
  {
    if s == [] then [] else (if IsLeaf(s[0]) then [s[0]] else []) + LeafEntries(s[1..])
  }

  /** The prefix (non-leaf) entries, in store order. */
  function PrefixEntries(s: seq<string>): seq<string>
  {
    if s == [] then [] else (if IsLeaf(s[0]) then [] else [s[0]]) + PrefixEntries(s[1..])
  }

  /** The characters of the stored words: leaf lengths without their marker. */
  function LeafLen(s: seq<string>): nat
  {
    if s == [] then 0 else (if IsLeaf(s[0]) then |s[0]| - 1 else 0) + LeafLen(s[1..])
  }

  /** The characters of the prefix entries. */
  function PrefixLen(s: seq<string>): nat
  {
    if s == [] then 0 else (if IsLeaf(s[0]) then 0 else |s[0]|) + PrefixLen(s[1..])
  }

  /** The characters of all entries. */
  function CharCount(s: seq<string>): nat
  {
    if s == [] then 0 else |s[0]| + CharCount(s[1..])
  }

  /** The record `statistics` reports. */
  datatype Stats = Stats(leaves: nat, leaflen: nat, prefixlen: nat, total: nat)

  /** The statistics of a sorted set. */
  function StatsOf(s: seq<string>): Stats
  {
    Stats(|LeafEntries(s)|, LeafLen(s), PrefixLen(s), |s|)
  }

  /** `leaves` reports exactly the stored leaf entries. */
  lemma {:induction false} LeafEntriesMembers(s: seq<string>, e: string)
    ensures e in LeafEntries(s) <==> e in s && IsLeaf(e)
  {
    if s != [] {
      LeafEntriesMembers(s[1..], e);
      assert s == [s[0]] + s[1..];
    }
  }

  /** `leaves` reports them in ascending order, without repeats. */
  lemma {:induction false} LeafEntriesSorted(s: seq<string>)
    requires Sorted(s)
    ensures Sorted(LeafEntries(s))
  {
    if s != [] {
      var tail := LeafEntries(s[1..]);
      LeafEntriesSorted(s[1..]);
      if IsLeaf(s[0]) {
        forall j | 0 <= j < |tail| ensures Less(s[0], tail[j]) {
          LeafEntriesMembers(s[1..], tail[j]);
          var k :| 1 <= k < |s| && s[k] == tail[j];
        }
        assert Sorted([s[0]] + tail) by {
          forall i, j | 0 <= i < j < |tail| + 1 ensures Less(([s[0]] + tail)[i], ([s[0]] + tail)[j]) {
            assert ([s[0]] + tail)[j] == tail[j - 1];
          }
        }
      }
    }
  }

  /**
    The inventory of two runs of ranks read one after the other is the
    inventory of the first followed by that of the second: reading the set in
    windows gives what reading it at once gives.
   */
  lemma {:induction false} InventoryAppend(a: seq<string>, b: seq<string>)
    ensures LeafEntries(a + b) == LeafEntries(a) + LeafEntries(b)
    ensures LeafLen(a + b) == LeafLen(a) + LeafLen(b)
    ensures PrefixLen(a + b) == PrefixLen(a) + PrefixLen(b)
  {
    if a == [] {
      assert a + b == b;
    } else {
      assert (a + b)[1..] == a[1..] + b;
      InventoryAppend(a[1..], b);
    }
  }

  /** Every entry is either a leaf or a prefix entry. */
  lemma {:induction false} EntriesPartition(s: seq<string>)
    ensures |LeafEntries(s)| + |PrefixEntries(s)| == |s|
  {
    if s != [] {
      EntriesPartition(s[1..]);
    }
  }

  /**
    The character totals add up: word characters, prefix characters and one
    marker per leaf account for every stored character.
   */
  lemma {:induction false} StatsAddUp(s: seq<string>)
    ensures LeafLen(s) + PrefixLen(s) + |LeafEntries(s)| == CharCount(s)
  {
    if s != [] {
      StatsAddUp(s[1..]);
    }
  }
}
