/**
  The completer: a handle on one sorted-set key through which words are added,
  completed, removed, listed and counted. Every method issues the sorted-set
  commands the JavaScript class issues, in the order they reach the key, with
  the same paging in windows of `RANGELEN` ranks; only the backward scan of
  `remove` takes the corrected windows of `RemovePrefixes`. Each contract ties
  the new contents of the key to the functions of the `Addition`, `Completion`,
  `Removal` and `Inventory` modules, whose properties are proved there.
 */
module Completer {

  import opened Wrappers
  import opened Lexicographic
  import opened SortedSet
  import opened Encoding
  import opened Completion
  import opened Removal
  import opened Addition
  import opened Inventory

  class Completer {

    /** The sorted-set key the completer works on, reached through its client. */
    const store: Store

    ghost predicate Valid()
      reads this, store
    {
      store.Valid()
    }

    /** A completer over the key that `client` reaches. */
    constructor (client: Store)
      requires client.Valid()
      ensures store == client && Valid()
    {
      store := client;
    }

    /**
      `add`: stores the leaf of the normalised word and, when the leaf was new,
      every proper prefix of the word; reports the word only in that case.
     */
    method Add(input: Value) returns (added: Option<string>)
      requires Valid()
      modifies store
      ensures Valid()
      ensures store.entries == AddValue(old(store.entries), input)
      ensures added.Some? <==> Word(input).Some? && Leaf(Word(input).value) !in old(store.entries)
      ensures added.Some? ==> added == Word(input)
      ensures Dictionary(old(store.entries)) && (Word(input).Some? ==> MARKER !in Word(input).value)
        ==> Dictionary(store.entries)
    {
      ghost var before := store.entries;
      added := AddLeaf(input);
      if added.Some? {
        AddPrefixes(added.value);
      } else if Word(input).Some? {
        InsertPresent(before, Leaf(Word(input).value));
      }
      if Dictionary(before) && Word(input).Some? && MARKER !in Word(input).value {
        AddWordKeepsDictionary(before, Word(input).value);
      }
    }

    /**
      The first half of `add`: the ZADD of the normalised word's leaf, reporting
      the word when its leaf was new.
     */
    method AddLeaf(input: Value) returns (added: Option<string>)
      requires Valid()
      modifies store
      ensures Valid()
      ensures store.entries == InsertLeaf(old(store.entries), input)
      ensures added.Some? <==> Word(input).Some? && Leaf(Word(input).value) !in old(store.entries)
      ensures added.Some? ==> added == Word(input)
    {
      var w := Word(input);
      if w.None? {
        return None;
      }
      var numAdded := store.ZAdd(Leaf(w.value));
      added := if numAdded == 0 then None else w;
    }

    /** The second half of `add`: the ZADDs of the word's proper prefixes, shortest first. */
    method AddPrefixes(word: string)
      requires Valid()
      modifies store
      ensures Valid()
      ensures store.entries == InsertPrefixes(old(store.entries), word, |word|)
    {
      ghost var before := store.entries;
      var i := 0;
      while i < |word|
        invariant 0 <= i <= |word|
        invariant store.Valid()
        invariant store.entries == InsertPrefixes(before, word, i)
      {
        var _ := store.ZAdd(word[..i]);
        i := i + 1;
      }
    }

    /**
      `addList`: the leaf ZADDs of all the arguments, in list order, then the
      prefix ZADDs of each word whose leaf was new; reports those words, in
      list order.
     */
    method AddList(items: seq<Value>) returns (words: seq<string>)
      requires Valid()
      modifies store
      ensures Valid()
      ensures store.entries == AddAll(old(store.entries), items)
      ensures words == NewWords(old(store.entries), items)
      ensures Dictionary(old(store.entries)) && MarkerFreeWords(items) ==> Dictionary(store.entries)
    {
      ghost var before := store.entries;
      words := AddLeaves(items);
      AddAllPrefixes(words);
      if Dictionary(before) && MarkerFreeWords(items) {
        AddAllKeepsDictionary(before, items);
      }
    }

    /** The first loop of `addList`: the leaf ZADD of each argument, in list order. */
    method AddLeaves(items: seq<Value>) returns (words: seq<string>)
      requires Valid()
      modifies store
      ensures Valid()
      ensures store.entries == InsertLeaves(old(store.entries), items)
      ensures words == NewWords(old(store.entries), items)
    {
      ghost var before := store.entries;
      words := [];
      var i := 0;
      while i < |items|
        invariant 0 <= i <= |items|
        invariant Valid()
        invariant store.entries == InsertLeaves(before, items[..i])
        invariant words == NewWords(before, items[..i])
      {
        LeavesStep(before, items, i);
        var w := AddLeaf(items[i]);
        if w.Some? {
          words := words + [w.value];
        }
        i := i + 1;
      }
      assert items[..|items|] == items;
    }

    /** The replies to the leaf ZADDs: the prefix ZADDs of each new word, word after word. */
    method AddAllPrefixes(words: seq<string>)
      requires Valid()
      modifies store
      ensures Valid()
      ensures store.entries == InsertAllPrefixes(old(store.entries), words)
    {
      ghost var before := store.entries;
      var j := 0;
      while j < |words|
        invariant 0 <= j <= |words|
        invariant Valid()
        invariant store.entries == InsertAllPrefixes(before, words[..j])
      {
        assert words[..j + 1][..j] == words[..j];
        AddPrefixes(words[j]);
        j := j + 1;
      }
      assert words[..|words|] == words;
    }

    /**
      `complete`: the normalised prefix and its completions. An argument that
      normalises to nothing gets the empty prefix and no completions.
     */
    method Complete(input: Value, count: int) returns (prefix: string, completions: seq<string>)
      ensures Word(input).None? ==> prefix == "" && completions == []
      ensures Word(input).Some? ==> prefix == Word(input).value
      ensures Word(input).Some? ==> completions == Answer(store.entries, prefix, count)
    {
      var w := Word(input);
      if w.None? {
        return "", [];
      }
      prefix := w.value;
      completions := [];
      var start := store.ZRank(prefix);
      if start.None? || start.value == 0 {
        // No rank: the prefix can still be a stored word.
        var position := store.ZRank(Leaf(prefix));
        if position.Some? {
          completions := [prefix];
        }
        return;
      }
      completions := ScanBlock(prefix, count, start.value);
    }

    /**
      The forward scan of `complete` from the prefix's rank `r`, one window of
      `RANGELEN` ranks after another, until a window stops it or comes back empty.
     */
    method ScanBlock(prefix: string, count: int, r: nat) returns (completions: seq<string>)
      requires Rank(store.entries, prefix) == Some(r) && r > 0
      ensures completions == Answer(store.entries, prefix, count)
    {
      ghost var s := store.entries;
      ghost var all := Matches(s, r, prefix);
      assert Answer(s, prefix, count) == Take(all, Limit(count));
      completions := [];
      var pos := r;
      var range := store.ZRange(pos, pos + RANGELEN - 1);
      while range != []
        invariant r <= pos
        invariant range == s[Min(pos, |s|)..Min(pos + RANGELEN, |s|)]
        invariant |completions| < Limit(count)
        invariant completions + Matches(s, pos, prefix) == all
        decreases |s| - pos
      {
        assert pos < |s| && range == s[pos..pos + |range|];
        var stop;
        completions, stop := ScanRange(s, pos, range, prefix, count, completions);
        if stop {
          return;
        }
        ghost var rest := Matches(s, pos + |range|, prefix);
        if |range| < RANGELEN {
          // A short window reached the end of the set.
          MatchesStep(s, pos + |range|, prefix);
          MatchesStep(s, pos + RANGELEN, prefix);
        }
        assert rest == Matches(s, pos + RANGELEN, prefix);
        assert completions + rest == all;
        pos := pos + RANGELEN;
        range := store.ZRange(pos, pos + RANGELEN - 1);
      }
      MatchesStep(s, pos, prefix);
      TakeCollected(all, completions, [], Limit(count));
    }

    /**
      One window of the forward scan of `complete`, the ranks `pos` on of the
      sorted set `s`: it collects the words of the leaves that begin with the
      prefix, and stops the scan at the first entry that does not, or once
      the count is reached; otherwise the scan goes on after the window.
     */
    static method ScanRange(ghost s: seq<string>, pos: nat, range: seq<string>, prefix: string, count: int,
      completions: seq<string>)
      returns (collected: seq<string>, stop: bool)
      requires pos + |range| <= |s| && range == s[pos..pos + |range|]
      requires |completions| < Limit(count)
      ensures stop ==> collected == Take(completions + Matches(s, pos, prefix), Limit(count))
      ensures !stop ==> |collected| < Limit(count)
      ensures !stop ==> collected + Matches(s, pos + |range|, prefix) == completions + Matches(s, pos, prefix)
    {
      ghost var seen := completions + Matches(s, pos, prefix);
      collected := completions;
      var k := pos;
      while k < pos + |range|
        invariant pos <= k <= pos + |range|
        invariant |collected| < Limit(count)
        invariant collected + Matches(s, k, prefix) == seen
      {
        var item := range[k - pos];
        assert item == s[k];
        MatchesStep(s, k, prefix);
        if !StartsWith(item, prefix) {
          // Past the block of entries that begin with the prefix.
          TakeCollected(seen, collected, [], Limit(count));
          return collected, true;
        }
        if IsLeaf(item) {
          ghost var later := Matches(s, k + 1, prefix);
          assert collected + Matches(s, k, prefix) == (collected + [Stem(item)]) + later;
          collected := collected + [Stem(item)];
          if |collected| >= count {
            TakeCollected(seen, collected, later, Limit(count));
            return collected, true;
          }
        }
        k := k + 1;
      }
      stop := false;
    }

    /**
      `remove`: deletes the word's leaf and, when the word is not itself a
      prefix entry, the prefix entries that only it needed; reports whether
      the leaf was stored.
     */
    method Remove(input: Value) returns (removed: bool)
      requires Valid()
      modifies store
      ensures Valid()
      ensures removed <==> Word(input).Some? && Leaf(Word(input).value) in old(store.entries)
      ensures Word(input).None? ==> store.entries == old(store.entries)
      ensures Word(input).Some? ==> store.entries == RemoveWord(old(store.entries), Word(input).value)
      ensures Dictionary(old(store.entries)) && (Word(input).Some? ==> MARKER !in Word(input).value)
        ==> Dictionary(store.entries)
    {
      var w := Word(input);
      if w.None? {
        return false;
      }
      var word := w.value;
      ghost var before := store.entries;
      var rank := store.ZRank(word);
      var start: Option<nat> := None;
      if rank.None? {
        start := store.ZRank(Leaf(word));
      }
      var count := store.ZRem(Leaf(word));
      removed := count == 1;
      if start.Some? {
        var commonPrefix := CommonPrefixAfter(start.value, word);
        RemovePrefixes(start.value, word, commonPrefix);
      }
      if Dictionary(before) && MARKER !in word {
        RemovalKeepsDictionary(before, word);
      }
    }

    /**
      The common prefix of the word and the entry at rank `start`, which, once
      the leaf is deleted, is the entry that followed it; none when there is no
      such entry or it is the empty prefix entry.
     */
    method CommonPrefixAfter(start: nat, word: string) returns (commonPrefix: Option<string>)
      requires Valid()
      ensures commonPrefix.Some? <==> start < |store.entries| && store.entries[start] != ""
      ensures commonPrefix.Some? ==> StartsWith(word, commonPrefix.value) && StartsWith(store.entries[start], commonPrefix.value)
      ensures commonPrefix == NextCommonPrefix(store.entries, start, word)
    {
      var range := store.ZRange(start, start + 1);
      commonPrefix := None;
      if range != [] && range[0] != "" {
        var shared := LongestCommonPrefix(word, range[0]);
        commonPrefix := Some(shared);
      }
    }

    /**
      The backward scan of `remove`: reads windows of up to `RANGELEN` ranks
      below `start`, from the top of each window down, until it meets a
      boundary, then deletes the ranks strictly between that boundary and
      `start`.
     */
    method RemovePrefixes(start: nat, word: string, commonPrefix: Option<string>)
      requires Valid() && start <= |store.entries|
      modifies store
      ensures Valid()
      ensures store.entries == Prune(old(store.entries), start, word, commonPrefix)
    {
      ghost var s := store.entries;
      var right := start;
      var boundary: Option<nat> := None;
      while right > 0 && boundary.None?
        invariant 0 <= right <= start <= |s|
        invariant store.entries == s
        invariant boundary.None? ==> NearestBoundary(s, right, word, commonPrefix) == NearestBoundary(s, start, word, commonPrefix)
        invariant boundary.Some? ==> boundary == NearestBoundary(s, start, word, commonPrefix)
        decreases right, if boundary.None? then 1 else 0
      {
        var left := if right >= RANGELEN then right - RANGELEN else 0;
        var found := WindowBoundary(left, right, word, commonPrefix);
        if found.Some? {
          boundary := Some(left + found.value);
        } else {
          right := left;
        }
      }
      if boundary.Some? {
        PruneByRank(s, start, word, commonPrefix, boundary.value);
        var _ := store.ZRemRangeByRank(boundary.value + 1, start - 1);
      }
    }

    /**
      Reads the window of ranks `left` to `right - 1` and looks in it for the
      nearest boundary below `right`: found, it is the nearest in the whole
      set; not found, the nearest is below the window.
     */
    method WindowBoundary(left: nat, right: nat, word: string, commonPrefix: Option<string>)
      returns (found: Option<nat>)
      requires Valid() && left < right <= |store.entries|
      ensures found.Some? ==> left + found.value < right
      ensures found.Some? ==> NearestBoundary(store.entries, right, word, commonPrefix) == Some(left + found.value)
      ensures found.None? ==> NearestBoundary(store.entries, left, word, commonPrefix) == NearestBoundary(store.entries, right, word, commonPrefix)
    {
      var range := store.ZRange(left, right - 1);
      found := FindBoundary(range, word, commonPrefix);
      WindowNearest(store.entries, left, right, range, word, commonPrefix);
    }

    /**
      One window of the backward scan of `remove`, read from its top rank down:
      the position of the first boundary met, if any.
     */
    static method FindBoundary(range: seq<string>, word: string, commonPrefix: Option<string>)
      returns (found: Option<nat>)
      ensures found == NearestBoundary(range, |range|, word, commonPrefix)
    {
      var i := |range|;
      while i > 0
        invariant 0 <= i <= |range|
        invariant NearestBoundary(range, i, word, commonPrefix) == NearestBoundary(range, |range|, word, commonPrefix)
      {
        var item := range[i - 1];
        if IsBoundary(item, word, commonPrefix) {
          return Some(i - 1);
        }
        i := i - 1;
      }
      return None;
    }

    /** The common prefix of the word and the entry that followed its leaf, one character at a time. */
    static method LongestCommonPrefix(word: string, next: string) returns (shared: string)
      ensures shared == CommonPrefix(word, next)
    {
      var maxlen := if |word| < |next| then |word| else |next|;
      var ptr := 0;
      while ptr < maxlen && word[ptr] == next[ptr]
        invariant 0 <= ptr <= maxlen
        invariant word[..ptr] == next[..ptr]
      {
        ptr := ptr + 1;
      }
      shared := word[..ptr];
      CommonPrefixLongest(word, next, shared);
    }

    /** `leaves`: every leaf entry, marker kept, read forward in windows. */
    method Leaves() returns (leaves: seq<string>)
      ensures leaves == LeafEntries(store.entries)
    {
      ghost var s := store.entries;
      var _ := store.ZCard();
      leaves := [];
      var pos := 0;
      var range := store.ZRange(pos, pos + RANGELEN - 1);
      while range != []
        invariant range == s[Min(pos, |s|)..Min(pos + RANGELEN, |s|)]
        invariant leaves == LeafEntries(s[..Min(pos, |s|)])
        decreases |s| - pos
      {
        var found := RangeLeaves(range);
        assert s[..Min(pos + RANGELEN, |s|)] == s[..pos] + range;
        InventoryAppend(s[..pos], range);
        leaves := leaves + found;
        pos := pos + RANGELEN;
        range := store.ZRange(pos, pos + RANGELEN - 1);
      }
      assert s[..Min(pos, |s|)] == s;
    }

    /** One window of `leaves`: its leaf entries, in rank order. */
    static method RangeLeaves(range: seq<string>) returns (found: seq<string>)
      ensures found == LeafEntries(range)
    {
      found := [];
      var i := 0;
      while i < |range|
        invariant 0 <= i <= |range|
        invariant found == LeafEntries(range[..i])
      {
        var item := range[i];
        assert range[..i + 1] == range[..i] + [item];
        InventoryAppend(range[..i], [item]);
        if IsLeaf(item) {
          found := found + [item];
        }
        i := i + 1;
      }
      assert range[..i] == range;
    }

    /** `statistics`: the leaf count, the character totals and the number of entries. */
    method Statistics() returns (stats: Stats)
      ensures stats == StatsOf(store.entries)
    {
      ghost var s := store.entries;
      var count := store.ZCard();
      stats := Stats(0, 0, 0, count);
      var pos := 0;
      var range := store.ZRange(pos, pos + RANGELEN - 1);
      while range != []
        invariant range == s[Min(pos, |s|)..Min(pos + RANGELEN, |s|)]
        invariant stats == StatsOf(s[..Min(pos, |s|)]).(total := |s|)
        decreases |s| - pos
      {
        stats := Tally(range, stats);
        assert s[..Min(pos + RANGELEN, |s|)] == s[..pos] + range;
        InventoryAppend(s[..pos], range);
        pos := pos + RANGELEN;
        range := store.ZRange(pos, pos + RANGELEN - 1);
      }
      assert s[..Min(pos, |s|)] == s;
    }

    /**
      One window of `statistics`: each leaf adds one to the leaf count and its
      word's length to the leaf characters, each other entry its length to the
      prefix characters.
     */
    static method Tally(range: seq<string>, stats: Stats) returns (counted: Stats)
      ensures counted.leaves == stats.leaves + |LeafEntries(range)|
      ensures counted.leaflen == stats.leaflen + LeafLen(range)
      ensures counted.prefixlen == stats.prefixlen + PrefixLen(range)
      ensures counted.total == stats.total
    {
      counted := stats;
      var i := 0;
      while i < |range|
        invariant 0 <= i <= |range|
        invariant counted == Stats(stats.leaves + |LeafEntries(range[..i])|, stats.leaflen + LeafLen(range[..i]),
          stats.prefixlen + PrefixLen(range[..i]), stats.total)
      {
        var item := range[i];
        assert range[..i + 1] == range[..i] + [item];
        InventoryAppend(range[..i], [item]);
        if IsLeaf(item) {
          counted := counted.(leaves := counted.leaves + 1, leaflen := counted.leaflen + (|item| - 1));
        } else {
          counted := counted.(prefixlen := counted.prefixlen + |item|);
        }
        i := i + 1;
      }
      assert range[..i] == range;
    }

    /** `dump`: the whole sorted set, in rank order. */
    method Dump() returns (entries: seq<string>)
      ensures entries == store.entries
      ensures Valid() ==> Sorted(entries)
    {
      entries := store.ZRange(0, -1);
    }

    /** `flush`: deletes the key; reports 1 when it held anything, else 0. */
    method Flush() returns (deleted: nat)
      requires Valid()
      modifies store
      ensures Valid() && store.entries == []
      ensures deleted == if old(store.entries) == [] then 0 else 1
    {
      deleted := store.Del();
    }
  }
}
