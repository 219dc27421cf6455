# prefix-completer, modelled in Dafny

`Completer` (completer.js) is a prefix-autocomplete dictionary kept in one Redis
sorted set. Every member has score 0, so the set behaves as a strictly increasing
sequence of strings in byte order, which is code-point order on the characters.
A word `w` is stored as its *leaf entry* `w*`. Each proper prefix of a stored
word, including the empty string, is stored raw as a *prefix entry*.

This project models that class over an abstract sorted set and proves what its
operations do:

- `SortedSet` is the key. `Store` is a class whose `entries: seq<string>` stays
  strictly sorted. Its methods are the commands the completer issues: ZADD,
  ZRANK, ZRANGE, ZREM, ZREMRANGEBYRANK, ZCARD and DEL. `Span` gives ZRANGE's
  index rules: a negative index counts from the end, the start is clamped to 0,
  the end is clamped to the last rank, and a start past the end selects nothing.
- `Lexicographic` is the member order, with the facts about prefixes the
  proofs need.
- `Encoding` holds:
  - the leaf marker and the window size `RANGELEN = 50`;
  - normalisation: JavaScript's `trim` (its exact white-space set), then
    lower-casing;
  - the *dictionary invariant*: sorted, rooted (the empty prefix is stored
    whenever anything is), prefix-closed (every proper prefix of an entry's
    word is stored) and marker-free (the marker only ends leaves).
- `Addition`, `Completion`, `Removal` and `Inventory` state what `add` /
  `addList`, `complete`, `remove`, and `leaves` / `statistics` do, as functions
  of the set before them. They prove the properties of those functions:
  - the invariant is kept;
  - on a dictionary, the answer of `complete` is the first `count` (at least
    one) stored words whose leaf begins with the prefix, in store order;
  - `addList` reports exactly the listed words that were not stored before,
    each once;
  - `remove` deletes the word's leaf, keeps every other leaf, and deletes no
    entry that a surviving entry needs as a prefix (prefix entries no longer
    needed can stay, see below);
  - the inventory counts add up.
- `Completer` is the class itself. Each method issues the source's commands in
  the order they reach the key, with the same paging loops over windows of 50
  ranks. For `addList` that order is every leaf ZADD first, then the prefix
  ZADDs of the new words, because `add` sends its leaf ZADD at once and its
  prefix ZADDs only from the reply. The one departure is the backward scan of
  `remove`, which takes corrected windows (see Findings). Each method's
  `ensures` ties the new contents of the key, and the reply, to the functions
  above.
- `ScanAsWritten` models the backward scan of `remove` exactly as the source
  issues it. It shows two dictionaries on which that scan goes wrong (see
  Findings), and proves that it agrees with the corrected scan whenever the
  boundary lies in its first window.

Redis runs the commands of one connection in the order they were issued, so
every callback chain is modelled as a sequential method. In `remove`, the read
of the leaf's neighbour is issued after the ZREM of the leaf. The model
therefore reads rank `start` after deleting the leaf, which returns the leaf's
former successor.

Where the documented design and the code differ, the model follows the code:

- `remove` leaves orphan prefix entries behind. After adding "ab" and "abc",
  removing "abc" keeps the prefix entry "ab", because a leaf is a boundary.
  `RemoveWord` does what the code does, and the invariant proved is prefix
  closure, not the absence of orphans.
- Completions come in store order, which is the order of the leaf entries, not
  of the words. A character below the marker (a space, for instance) sorts
  first: "a b*" sorts before "a*", so completing "a" gives "a b" before "a".
- `flush` replies with DEL's count: 1 when the key held anything, 0 otherwise.
  It does not reply with the number of entries.
- `complete` treats rank 0 like a missing rank. In a dictionary rank 0 always
  holds the empty prefix, which is never looked up, so this is harmless.
- A count below 1 still yields one completion, because the count is checked
  only after a push.

## Model

| member | source | states |
|---|---|---|
| SortedSet.Span | completer.js:197 | the ranks ZRANGE / ZREMRANGEBYRANK address are exactly those between the two indexes, each counted from the end when negative, inside the set; in-range indexes address `lo` up to `hi` cut at the end of the set |
| SortedSet.Range | completer.js:144 | ZRANGE with non-negative indexes is the slice of ranks `lo`..`hi` cut at the end of the set |
| SortedSet.RemoveRange | completer.js:183 | ZREMRANGEBYRANK with in-range indexes leaves exactly the ranks below `lo` and above `hi` |
| SortedSet.Rank | completer.js:101 | ZRANK gives the member's rank, and null exactly when it is not stored |
| SortedSet.Insert | completer.js:47 | ZADD keeps the set sorted and adds exactly the member |
| SortedSet.InsertPresent | completer.js:50 | ZADD of a member already stored changes nothing |
| SortedSet.Delete | completer.js:246 | ZREM keeps the set sorted and removes exactly the member, by cutting out its rank |
| SortedSet.Store.ZAdd | completer.js:47 | the new contents are `Insert` of the member; the reply is 1 when it was new, 0 otherwise |
| SortedSet.Store.ZRank | completer.js:162 | the member's rank, or none exactly when it is not stored |
| SortedSet.Store.ZRange | completer.js:222 | the entries of the ranks the indexes address |
| SortedSet.Store.ZRem | completer.js:246-248 | the member is deleted; the reply is 1 exactly when it was stored |
| SortedSet.Store.ZRemRangeByRank | completer.js:183 | the addressed ranks are deleted; the reply is how many went |
| SortedSet.Store.ZCard | completer.js:258 | the number of entries |
| SortedSet.Store.Del | completer.js:335 | the key is emptied; the reply is 1 when it held anything, else 0 |
| SortedSet.Store.constructor | completer.js:28 | a new key is an empty sorted set |
| Lexicographic.PrefixLess | completer.js:53-57 | a proper prefix sorts before the strings it begins, so every prefix entry sorts before its words' leaves |
| Lexicographic.PrefixBetween | completer.js:127-129 | entries beginning with a prefix form one block of the order, so the forward scan may stop at the first entry outside it |
| Lexicographic.SortedCut | completer.js:183 | cutting a block of ranks out of a sorted set leaves it sorted |
| Lexicographic.SortedRanks | completer.js:101 | in a sorted set, rank order and string order agree |
| Encoding.Leaf | completer.js:47 | a word's leaf entry is a leaf, one character longer, whose stem is the word |
| Encoding.LeafOfStem | completer.js:134 | cutting the marker off a leaf and adding it back gives the leaf |
| Encoding.MarkerOrder | completer.js:47 | a word sorts before its leaf, and its leaf sorts before the word extended by any character above the marker |
| Encoding.Trim | completer.js:43 | trimming leaves a slice of the input with white space on both sides of it and none at its ends |
| Encoding.Lower | completer.js:43 | lower-casing keeps the length, leaves no capital A-Z, turns each capital into its small letter and keeps every other character |
| Encoding.LowerIdempotent | completer.js:43 | lower-casing twice is lower-casing once |
| Encoding.IsLeaf | completer.js:132 | definition: an entry ending in the marker; `LeafOfStem` and `Leaf` characterise it |
| Encoding.Stem | completer.js:134 | definition: a leaf without its marker, a prefix entry as it is; `LeafOfStem` and `Leaf` characterise it |
| Encoding.Normalize | completer.js:43 | definition: `Lower` of `Trim`, characterised by their contracts and by `NormalizeIdempotent` |
| Encoding.TrimTrimmed | completer.js:43 | a string without white space at its ends trims to itself |
| Encoding.NormalizeIdempotent | completer.js:91 | normalising a normalised word gives it back, so a stored word is looked up as itself |
| Encoding.EmptyFirst | completer.js:106 | in a set holding the empty string, it has rank 0 |
| Encoding.Prefixes | completer.js:53-55 | the proper prefixes of a word are `w[..i]` for `i < |w|`, each shorter than the word and beginning it |
| Encoding.AdditionKeepsDictionary | completer.js:47-61 | adding a marker-free word's leaf and all its prefixes keeps the dictionary invariant |
| Encoding.LeafRemovalKeepsDictionary | completer.js:246 | deleting one leaf keeps the dictionary invariant |
| Encoding.OnlyLeafBegins | completer.js:106-115 | in a prefix-closed set, the only entry that begins with a word that is not stored itself is that word's leaf |
| Addition.Word | completer.js:34-45 | definition of the argument check: its contract names the two outcomes; `WordOfWord` states what callers rely on |
| Addition.WordOfWord | completer.js:43 | the word of an argument is its own word, so a stored word is looked up as itself |
| Addition.InsertPrefixes | completer.js:53-57 | the ZADDs of the prefixes keep the set sorted |
| Addition.InsertPrefixesMembers | completer.js:53-57 | the ZADDs of `w[..0]`..`w[..n-1]` add exactly those prefixes |
| Addition.AddWord | completer.js:47-61 | `add` of a word keeps the set sorted |
| Addition.AddValue | completer.js:32-45 | `add` of any argument keeps the set sorted |
| Addition.AddWordMembers | completer.js:47-61 | a new word adds exactly its leaf and its proper prefixes; a word already stored changes nothing; the leaf is stored afterwards |
| Addition.AddWordIdempotent | completer.js:50 | adding a word twice is adding it once |
| Addition.AddWordKeepsDictionary | completer.js:47-61 | `add` of a marker-free word keeps the dictionary invariant |
| Addition.AddWordLeaves | completer.js:47-61 | after `add`, the stored words are the old ones and the added word |
| Addition.InsertLeaf | completer.js:47 | definition: the leaf ZADD `add` sends for an argument, if any; keeps the set sorted |
| Addition.InsertLeaves | completer.js:70-73 | definition: the leaf ZADDs of all arguments in list order; keeps the set sorted; `InsertLeavesMembers` characterises it |
| Addition.NewWords | completer.js:73-76 | definition: the words whose leaf ZADD answered 1, in list order; `NewWordsExactly` and `NewWordsDistinct` characterise it |
| Addition.InsertAllPrefixes | completer.js:52-60 | definition: the prefix ZADDs of the new words, word after word; keeps the set sorted; `InsertAllPrefixesMembers` characterises it |
| Addition.AddAll | completer.js:66-80 | definition: every leaf first, then the prefixes of the new words; keeps the set sorted; `AddAllMembers` characterises it |
| Addition.AddAllSingle | completer.js:66-80 | `addList` of one argument stores and reports what `add` of it does |
| Addition.InsertLeavesMembers | completer.js:70-73 | the leaf ZADDs add exactly the leaves of the list's words |
| Addition.InsertAllPrefixesMembers | completer.js:52-60 | the prefix ZADDs add exactly the proper prefixes of the words |
| Addition.AddAllMembers | completer.js:66-80 | after `addList` an entry is stored exactly when it was before, or is the leaf of a listed word, or is a proper prefix of a word whose leaf was new |
| Addition.AddAllEntryClosed | completer.js:66-80 | after `addList` of marker-free words on a dictionary, every entry keeps its chain of prefixes and holds the marker only at its end |
| Addition.AddAllRooted | completer.js:66-80 | after `addList` of marker-free words on a dictionary, the empty prefix is stored whenever anything is |
| Addition.WordsOfWitness | completer.js:70-76 | each word of a list is the word of one of its arguments |
| Addition.WordsOfHas | completer.js:70-76 | the word of each argument is a word of the list |
| Addition.AddAllLeaves | completer.js:66-80 | after `addList`, the stored words are the old ones and the list's words |
| Addition.AddAllKeepsDictionary | completer.js:66-80 | `addList` of marker-free words keeps the dictionary invariant |
| Addition.NewWordsStored | completer.js:75-76 | each reported word is stored afterwards |
| Addition.NewWordsExactly | completer.js:66-80 | `addList` reports a word exactly when it is one of the list's words and its leaf was not stored before, whatever characters the words hold |
| Addition.NewWordsDistinct | completer.js:66-80 | `addList` reports each word once, even when the list repeats it |
| Completion.Matches | completer.js:118-144 | definition: the words of the leaves the forward scan meets from a rank before the first entry outside the prefix; `MatchesAreCompletions` and `MatchesMembers` characterise it |
| Completion.Completions | completer.js:132-134 | reference definition: every stored word whose leaf begins with the prefix, in store order; `CompletionsMembers` characterises it |
| Completion.Answer | completer.js:101-145 | definition of the reply of `complete`: the leaf fallback when the prefix has no rank or rank 0, else the scan cut to the count; `AnswerIsCompletions`, `AnswerBelowOne` and `AnswerSound` characterise it |
| Completion.Take | completer.js:135-136 | at most `n` items, a prefix of the list, all of it when it is shorter |
| Completion.TakeCollected | completer.js:129-136 | stopping with everything collected while short of the count, or with the count reached, answers the first `count` completions |
| Completion.CompletionsFromMembers | completer.js:132-134 | the reference answer from a rank holds a word exactly when its leaf is stored there or above and begins with the prefix |
| Completion.CompletionsMembers | completer.js:132-134 | the reference answer holds a word exactly when its leaf is stored and begins with the prefix |
| Completion.CompletionsSkip | completer.js:127-129 | ranks holding no entry that begins with the prefix contribute no completion |
| Completion.BlockEnds | completer.js:127-129 | once an entry above the prefix's rank does not begin with it, no later entry does |
| Completion.MatchesAreCompletions | completer.js:118-144 | from the prefix's rank, what the scan collects is the reference answer |
| Completion.BelowRankSkipped | completer.js:101 | no entry below the prefix's rank begins with the prefix |
| Completion.UnstoredPrefixCompletions | completer.js:106-115 | in a dictionary, a prefix that is not a prefix entry completes to its own word when stored, and to nothing else |
| Completion.AnswerIsCompletions | completer.js:101-145 | on a dictionary, `complete` answers the first `count` stored words that begin with the prefix, in store order |
| Completion.AnswerBelowOne | completer.js:135-136 | on a dictionary, a count below one still answers the first completion, because the count is checked only after a push |
| Completion.AnswerSound | completer.js:101-145 | on any set, `complete` answers at most `count` (at least one) words, each stored as a leaf that begins with the prefix |
| Completion.MatchesMembers | completer.js:132-134 | each word the scan collects is stored as a leaf that begins with the prefix |
| Removal.CommonPrefix | completer.js:229-236 | the common prefix begins both strings and cannot be extended |
| Removal.CommonPrefixLongest | completer.js:231-236 | every common prefix of the two strings begins the computed one, which is the longest |
| Removal.IsBoundary | completer.js:179 | definition of the test that stops the backward scan: empty, the common prefix, a leaf, or at least as long as the word |
| Removal.NextCommonPrefix | completer.js:222-236 | definition: the common prefix of the word and the entry at the leaf's rank after the ZREM; none when there is none or it is empty |
| Removal.Prune | completer.js:167-206 | definition: deletes the ranks strictly between the nearest boundary and the leaf's rank; `PruneByRank`, `PruneAbove` and `PruneKeepsDictionary` characterise it |
| Removal.RemoveWord | completer.js:149-252 | definition of `remove` on the set: the leaf ZREM, and the pruning when the word is not a prefix entry; `RemoveWordCases` and `RemovalKeepsDictionary` characterise it |
| Removal.NearestBoundary | completer.js:175-179 | the highest rank below `k` holding a boundary (empty, the common prefix, a leaf, or at least as long as the word), with no boundary above it |
| Removal.PruneByRank | completer.js:181-183 | the pruned set is ZREMRANGEBYRANK from just above the boundary to just below the leaf's rank |
| Removal.NearestBoundaryAt | completer.js:175-188 | a boundary with none above it below `k` is the nearest boundary |
| Removal.NearestBoundaryInSlice | completer.js:173-177 | searching a window from its top finds the nearest boundary of the whole set when it lies in the window |
| Removal.NearestBoundaryBelow | completer.js:192-197 | with no boundary in a window, the nearest boundary is the one below the window |
| Removal.WindowNearest | completer.js:173-198 | a boundary found in a window is the nearest below its top; none found, the search goes on below the window |
| Removal.PruneAbove | completer.js:179-183 | with the boundary at `b` and none above it, pruning keeps the ranks up to `b` and from the leaf's rank on |
| Removal.PruneSubset | completer.js:183 | pruning only deletes |
| Removal.RemoveWordCases | completer.js:162-250 | a word whose leaf is not stored changes nothing; a word that is a prefix entry loses exactly its leaf and the set shrinks by one; the leaf is always gone and nothing is added |
| Removal.KeptByCut | completer.js:183 | entries outside the deleted ranks survive |
| Removal.RunNotPrefixOfUpper | completer.js:179 | no entry the scan passes over is a prefix of an entry at or above the leaf's rank |
| Removal.SharedByWordAndNext | completer.js:219-236 | a prefix entry below the leaf that begins an entry above it begins both the word and its successor |
| Removal.CommonPrefixRank | completer.js:219-236 | the common prefix with the successor is stored below the leaf's rank |
| Removal.CutKeepsPrefixes | completer.js:179-183 | an entry that survives the pruning keeps its whole chain of prefixes |
| Removal.PruneBoundary | completer.js:179-183 | on a dictionary, the scan finds a boundary rank `b` below the leaf; pruning keeps ranks up to `b` and from the leaf on, and no rank between them is a boundary |
| Removal.PrunedDictionary | completer.js:179-183 | cutting out a run of non-boundary ranks above the empty root keeps the dictionary invariant and deletes only |
| Removal.PruneKeepsDictionary | completer.js:167-206 | the pruning keeps the dictionary invariant, keeps every leaf and adds nothing |
| Removal.DeletedLeafGap | completer.js:208-250 | once the leaf is deleted, its rank separates the entries below the leaf from those above, and the word's prefixes are still stored |
| Removal.RemovalKeepsDictionary | completer.js:149-252 | `remove` of a marker-free word keeps the dictionary invariant, deletes the word's leaf, adds nothing and keeps every other leaf |
| Inventory.LeafEntries | completer.js:264-277 | definition: the leaf entries in store order; `LeafEntriesMembers` and `LeafEntriesSorted` characterise it |
| Inventory.StatsOf | completer.js:286-323 | definition of the reply of `statistics`; `StatsAddUp` and `EntriesPartition` characterise it |
| Inventory.LeafEntriesMembers | completer.js:269-274 | `leaves` reports exactly the stored leaf entries |
| Inventory.LeafEntriesSorted | completer.js:264-277 | `leaves` reports them in ascending order, without repeats |
| Inventory.InventoryAppend | completer.js:276-277 | reading the set in consecutive windows gives the leaves and character totals of reading it at once |
| Inventory.EntriesPartition | completer.js:305-314 | leaf entries plus prefix entries make up every entry |
| Inventory.StatsAddUp | completer.js:305-314 | word characters, prefix characters and one marker per leaf account for every stored character |
| ScanAsWritten.ScanFrom | completer.js:173-198 | definition of the backward scan as written: 49-rank windows below `right`, `right` stepping down by 50, ending at a boundary, or spinning once `right` reaches minus the size of the set, from where every window is empty |
| ScanAsWritten.RemovalAsWritten | completer.js:149-252 | definition of `remove` as written, with that scan |
| ScanAsWritten.WindowBoundary | completer.js:175-181 | the nearest boundary, inside a window, is the one the window's search finds |
| ScanAsWritten.FirstWindowFinds | completer.js:205 | when the first window holds the nearest boundary, the scan as written finds it |
| ScanAsWritten.FirstWindow | completer.js:205 | the first window, when it holds the boundary, is every rank from its start up to the leaf's rank |
| ScanAsWritten.FirstWindowAgrees | completer.js:173-205 | in that case it deletes the same ranks as the corrected scan |
| ScanAsWritten.AsWrittenAgrees | completer.js:149-252 | `remove` as written equals the corrected `remove` whenever the first window reaches the boundary |
| ScanAsWritten.AsWrittenLosesWord | completer.js:192-197 | on the dictionary of "a" and "a" + 24 b's, removing the long word as written deletes the leaf "a*" too |
| ScanAsWritten.CorrectedKeepsWord | completer.js:167-206 | the corrected scan leaves "", "a", "a*" |
| ScanAsWritten.AsWrittenHangs | completer.js:192-198 | on the dictionary of the word of 25 a's, removing it as written never answers |
| ScanAsWritten.CorrectedRemovesChain | completer.js:167-206 | the corrected scan leaves only the empty prefix |
| ScanAsWritten.ChainRemoved | completer.js:167-206 | removing the only word of a dictionary of one word made of a repeated character leaves only the empty prefix |
| Completer.Completer.constructor | completer.js:17-21 | a completer works on the key its client reaches |
| Completer.Completer.Add | completer.js:32-63 | the new contents are `add` of the argument; the word is reported exactly when its leaf was new; the dictionary invariant is kept for marker-free words |
| Completer.Completer.AddLeaf | completer.js:34-50 | the leaf ZADD of the normalised word; reports the word exactly when its leaf was new |
| Completer.Completer.AddPrefixes | completer.js:52-60 | the ZADDs of the word's proper prefixes, shortest first |
| Completer.Completer.AddList | completer.js:66-80 | every leaf ZADD in list order, then the prefix ZADDs of the new words; the report is `NewWords`, which `NewWordsExactly` shows is exactly the listed words not stored before; the invariant is kept for marker-free words |
| Completer.Completer.AddLeaves | completer.js:70-79 | the loop of `addList`: the leaf ZADD of each argument, collecting the words whose leaf was new |
| Completer.Completer.AddAllPrefixes | completer.js:52-60 | the prefix ZADDs sent from the replies to the leaf ZADDs, word after word |
| Completer.Completer.Complete | completer.js:83-146 | an argument that normalises to nothing gets `("", [])`; otherwise the normalised prefix and `Answer`, which `AnswerIsCompletions` shows is the first `count` completions |
| Completer.Completer.ScanBlock | completer.js:118-144 | the paged forward scan from the prefix's rank collects exactly `Answer` |
| Completer.Completer.ScanRange | completer.js:123-138 | one window collects the leaves' words and stops at the first entry outside the prefix or at the count; otherwise the scan goes on after the window |
| Completer.Completer.Remove | completer.js:149-252 | the reply is true exactly when the word's leaf was stored; the new contents are `RemoveWord`; the invariant is kept for marker-free words |
| Completer.Completer.CommonPrefixAfter | completer.js:222-237 | the common prefix of the word and the entry now at the leaf's rank; none when there is no such entry or it is empty |
| Completer.Completer.RemovePrefixes | completer.js:167-206 | the backward scan in windows deletes the ranks strictly between the nearest boundary and the leaf's rank |
| Completer.Completer.WindowBoundary | completer.js:197 | a window's boundary is the nearest below its top; none found, the nearest is below the window |
| Completer.Completer.FindBoundary | completer.js:175-190 | searching a window from its top finds its highest boundary |
| Completer.Completer.LongestCommonPrefix | completer.js:229-236 | the character loop computes the longest common prefix |
| Completer.Completer.Leaves | completer.js:254-282 | the paged forward scan reports the leaf entries in store order |
| Completer.Completer.RangeLeaves | completer.js:269-274 | one window's leaf entries, in rank order |
| Completer.Completer.Statistics | completer.js:286-323 | leaf count, word characters, prefix characters and total number of entries |
| Completer.Completer.Tally | completer.js:305-315 | one window adds its leaf count and character totals |
| Completer.Completer.Dump | completer.js:325-329 | the whole set, in rank order |
| Completer.Completer.Flush | completer.js:333-336 | the key is emptied; the reply is 1 when it held anything, else 0 |

## Left out

- Client creation, database selection, the key name and its default, and promisification (completer.js:6, 11-29). The constructor takes the store as its client.
- Redis errors. Every command is total, so the `err` paths of every callback are not modelled.
- Callback concurrency and the `pending` counters. Commands on one connection run in issue order, so each operation is one sequential method that replies once at its end.
- `addList` of an empty list never calls back. The model replies `[]`.
- `addList` with invalid leading arguments calls back early, once each time its counter drops back to zero, because `add` answers those synchronously. The model replies once, after every argument.
- Completer.Completer.Add: an array argument is not modelled. The source hands it to `addList` (completer.js:37-38); `Value` has no array case, and `AddList` models that path for a flat list.
- Completer.Completer.AddList: arguments that are arrays themselves are not modelled. The source recurses into `addList` for them (completer.js:37-38, 73): it stores the inner words, pushes the inner reply array into its own reply, and never answers for an empty inner array. `Value` has no array case.
- `complete` called without a count defaults to 50 (completer.js:95-99). A count that is not a number is not modelled.
- Lower-casing covers the ASCII letters only. Other characters are left as they are.
- Characters are Unicode scalar values. JavaScript strings are UTF-16 code units, so for characters outside the Basic Multilingual Plane the model differs in: the character totals of `statistics`, the length tests of `remove` (completer.js:179), the prefixes `add` slices (completer.js:55, which can split a surrogate pair), and the common-prefix loop (completer.js:231-236).
- The common-prefix loop reads `word[ptr]` before it checks the bound. Past the end that read gives `undefined`, so the result does not change; the model checks the bound first.
- Completer.Completer.RemovePrefixes: models the corrected scan: windows of 50 ranks below the leaf's rank, cut at rank 0, ending at rank 0. The source's own scan is `ScanAsWritten.RemovalAsWritten`; see Findings.
- Completer.Completer.Add: the dictionary invariant is promised only for words without the marker `*`, because a word holding it collides with leaf entries.
- Completer.Completer.AddList: the dictionary invariant is promised only for lists whose words are free of the marker, for the same reason.
- Completer.Completer.Remove: the dictionary invariant is promised only for words without the marker, for the same reason.

## Findings

| source | as written | input that shows it | evidently intended | confidence | as-written member | corrected member |
|---|---|---|---|---|---|---|
| completer.js:194-197 | each backward window asks for ranks `right - 49` to `right - 1` (49 ranks) while `right` steps down by 50, and a negative start is counted from the end of the set | the dictionary of the words "a" and "a" followed by 24 b's; remove the long word | the scan stops at the leaf "a*" and leaves "", "a", "a*" | not executed | ScanAsWritten.AsWrittenLosesWord | ScanAsWritten.CorrectedKeepsWord |
| completer.js:192-198 | once the windows lie below rank 0 every ZRANGE comes back empty, and the scan asks for the next window forever without answering | the dictionary of the one word made of 25 a's; remove it | the scan stops at the empty prefix at rank 0 and leaves only "" | not executed | ScanAsWritten.AsWrittenHangs | ScanAsWritten.CorrectedRemovesChain |
