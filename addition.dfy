/**
  What `add` and `addList` do to the sorted set, as functions of the set before
  them, and what they report.
 */
module Addition {

  import opened Wrappers
  import opened Lexicographic
  import opened SortedSet
  import opened Encoding

  /** An argument as the API receives it: a string, or any other value that is not an array. */
  datatype Value = Str(s: string) | Other

  /**
    The normalised word of an argument; none for a value that is not a string
    or a string that trims to nothing.
   */
  function Word(v: Value): (r: Option<string>)
    ensures r.None? <==> v.Other? || Normalize(v.s) == []
    ensures r.Some? ==> r.value == Normalize(v.s) && |r.value| > 0
  {
    match v
    case Str(s) => if Normalize(s) == [] then None else Some(Normalize(s))
    case Other => None
  }

  /**
    A normalised word is its own word: `complete` and `remove` look a stored
    word up as itself.
   */
  lemma WordOfWord(v: Value)
    requires Word(v).Some?
    ensures Word(Str(Word(v).value)) == Word(v)
  {
    NormalizeIdempotent(v.s);
  }

  /** The sorted set after ZADD of the prefixes `w[..0]`, …, `w[..n-1]`, in that order. */
  function InsertPrefixes(s: seq<string>, w: string, n: nat): (r: seq<string>)
    requires Sorted(s) && n <= |w|
    ensures Sorted(r)
  {
    if n == 0 then s else Insert(InsertPrefixes(s, w, n - 1), w[..n - 1])
  }

  lemma {:induction false} InsertPrefixesMembers(s: seq<string>, w: string, n: nat)
    requires Sorted(s) && n <= |w|
    ensures Elems(InsertPrefixes(s, w, n)) == Elems(s) + set j | 0 <= j < n :: w[..j]
  {
    if n > 0 {
      InsertPrefixesMembers(s, w, n - 1);
    }
  }

  /**
    The sorted set after `add` of the normalised word `w`: the leaf first, and
    only when it was new, the proper prefixes.
   */
  function AddWord(s: seq<string>, w: string): (r: seq<string>)
    requires Sorted(s)
    ensures Sorted(r)
  {
    if Leaf(w) in s then s else InsertPrefixes(Insert(s, Leaf(w)), w, |w|)
  }

  /** The sorted set after `add` of any argument. */
  function AddValue(s: seq<string>, v: Value): (r: seq<string>)
    requires Sorted(s)
    ensures Sorted(r)
  {
    match Word(v)
    case None => s
    case Some(w) => AddWord(s, w)
  }

  /**
    A new word brings its leaf and its whole chain of prefixes; a word already
    stored changes nothing.
   */
  lemma AddWordMembers(s: seq<string>, w: string)
    requires Sorted(s)
    ensures Leaf(w) in s ==> AddWord(s, w) == s
    ensures Leaf(w) !in s ==> Elems(AddWord(s, w)) == Elems(s) + Additions(w)
    ensures Leaf(w) in AddWord(s, w)
  {
    if Leaf(w) !in s {
      InsertPrefixesMembers(Insert(s, Leaf(w)), w, |w|);
      assert (set j | 0 <= j < |w| :: w[..j]) == Prefixes(w);
      assert Leaf(w) in Elems(AddWord(s, w));
    }
  }

  /** Adding a word twice is adding it once. */
  lemma AddWordIdempotent(s: seq<string>, w: string)
    requires Sorted(s)
    ensures AddWord(AddWord(s, w), w) == AddWord(s, w)
  {
    AddWordMembers(s, w);
  }

  /** `add` of a marker-free word keeps the dictionary invariant. */
  lemma AddWordKeepsDictionary(s: seq<string>, w: string)
    requires Dictionary(s) && |w| > 0 && MARKER !in w
    ensures Dictionary(AddWord(s, w))
  {
    AddWordMembers(s, w);
    if Leaf(w) !in s {
      AdditionKeepsDictionary(s, AddWord(s, w), w);
    }
  }

  /** The only leaf a marker-free word brings is its own. */
  lemma AddWordLeaves(s: seq<string>, w: string, x: string)
    requires Sorted(s) && MARKER !in w
    ensures Leaf(x) in AddWord(s, w) <==> Leaf(x) in s || x == w
  {
    AddWordMembers(s, w);
    if Leaf(w) !in s {
      assert Leaf(x) in AddWord(s, w) <==> Leaf(x) in Elems(s) + Additions(w);
    }
  }

  // ---------------------------------------------------------------------------
  // addList
  //
  // `addList` calls `add` on every argument before any reply comes back, so the
  // leaf ZADDs of all the arguments reach the key first, in list order. The
  // prefix ZADDs of a word are sent from the reply to its leaf ZADD, so they
  // follow, word after word, for the words whose leaf was new.

  /** The sorted set after the leaf ZADD that `add` sends for an argument, if any. */
  function InsertLeaf(s: seq<string>, v: Value): (r: seq<string>)
    requires Sorted(s)
    ensures Sorted(r)
  {
    match Word(v)
    case None => s
    case Some(w) => Insert(s, Leaf(w))
  }

  /** The sorted set after the leaf ZADDs of all the arguments, in list order. */
  function InsertLeaves(s: seq<string>, items: seq<Value>): (r: seq<string>)
    requires Sorted(s)
    ensures Sorted(r)
  {
    if items == [] then s
    else InsertLeaf(InsertLeaves(s, items[..|items| - 1]), items[|items| - 1])
  }

  /** The words `addList` reports: those whose leaf ZADD answered 1, in list order. */
  function NewWords(s: seq<string>, items: seq<Value>): seq<string>
    requires Sorted(s)
  {
    if items == [] then []
    else
      var w := Word(items[|items| - 1]);
      NewWords(s, items[..|items| - 1])
        + (if w.Some? && Leaf(w.value) !in InsertLeaves(s, items[..|items| - 1]) then [w.value] else [])
  }

  /** One more argument of `addList`: its leaf ZADD, and its word when the leaf was new. */
  lemma LeavesStep(s: seq<string>, items: seq<Value>, i: nat)
    requires Sorted(s) && i < |items|
    ensures InsertLeaves(s, items[..i + 1]) == InsertLeaf(InsertLeaves(s, items[..i]), items[i])
    ensures var w := Word(items[i]);
      NewWords(s, items[..i + 1]) == NewWords(s, items[..i])
        + (if w.Some? && Leaf(w.value) !in InsertLeaves(s, items[..i]) then [w.value] else [])
  {
    assert items[..i + 1][..i] == items[..i];
  }

  /** The sorted set after the prefix ZADDs of the words `ws`, word after word. */
  function InsertAllPrefixes(s: seq<string>, ws: seq<string>): (r: seq<string>)
    requires Sorted(s)
    ensures Sorted(r)
  {
    if ws == [] then s
    else
      var w := ws[|ws| - 1];
      InsertPrefixes(InsertAllPrefixes(s, ws[..|ws| - 1]), w, |w|)
  }

  /** The sorted set after `addList`: every leaf first, then the prefixes of the new words. */
  function AddAll(s: seq<string>, items: seq<Value>): (r: seq<string>)
    requires Sorted(s)
    ensures Sorted(r)
  {
    InsertAllPrefixes(InsertLeaves(s, items), NewWords(s, items))
  }

  /** `addList` of one argument stores and reports what `add` of it does. */
  lemma AddAllSingle(s: seq<string>, v: Value)
    requires Sorted(s)
    ensures AddAll(s, [v]) == AddValue(s, v)
    ensures NewWords(s, [v]) == if Word(v).Some? && Leaf(Word(v).value) !in s then [Word(v).value] else []
  {
    var one := [v];
    assert one[..|one| - 1] == [] && one[|one| - 1] == v;
    var leaves := InsertLeaves(s, one);
    assert InsertLeaves(s, []) == s;
    assert leaves == InsertLeaf(InsertLeaves(s, one[..|one| - 1]), one[|one| - 1]);
    assert NewWords(s, one) == NewWords(s, []) + (if Word(v).Some? && Leaf(Word(v).value) !in s then [Word(v).value] else []);
    match Word(v)
    case None =>
      assert InsertAllPrefixes(leaves, []) == leaves;
    case Some(w) =>
      if Leaf(w) in s {
        InsertPresent(s, Leaf(w));
        assert InsertAllPrefixes(leaves, []) == leaves;
      } else {
        var ws := [w];
        assert ws[..|ws| - 1] == [] && ws[|ws| - 1] == w;
        assert InsertAllPrefixes(leaves, ws) == InsertPrefixes(leaves, w, |w|);
      }
  }

  /** The words of a list's arguments. */
  function WordsOf(items: seq<Value>): set<string>
  {
    if items == [] then {}
    else
      WordsOf(items[..|items| - 1])
        + (match Word(items[|items| - 1]) case None => {} case Some(w) => {w})
  }

  /** Each word of `WordsOf(items)` is the word of one of the arguments ... */
  lemma {:induction false} WordsOfWitness(items: seq<Value>, x: string) returns (k: nat)
    requires x in WordsOf(items)
    ensures k < |items| && Word(items[k]) == Some(x)
  {
    var init := items[..|items| - 1];
    if x in WordsOf(init) {
      k := WordsOfWitness(init, x);
      assert init[k] == items[k];
    } else {
      k := |items| - 1;
    }
  }

  /** ... and the word of each argument is in `WordsOf(items)`. */
  lemma {:induction false} WordsOfHas(items: seq<Value>, k: nat)
    requires k < |items| && Word(items[k]).Some?
    ensures Word(items[k]).value in WordsOf(items)
  {
    var init := items[..|items| - 1];
    if k < |init| {
      assert init[k] == items[k];
      WordsOfHas(init, k);
    }
  }

  /** No argument's word holds the marker. */
  predicate MarkerFreeWords(items: seq<Value>)
  {
    forall k :: 0 <= k < |items| && Word(items[k]).Some? ==> MARKER !in Word(items[k]).value
  }

  /** The leaf ZADDs store exactly the leaves of the list's words. */
  lemma {:induction false} InsertLeavesMembers(s: seq<string>, items: seq<Value>, e: string)
    requires Sorted(s)
    ensures e in InsertLeaves(s, items) <==> e in s || (IsLeaf(e) && Stem(e) in WordsOf(items))
  {
    if items != [] {
      var init := items[..|items| - 1];
      InsertLeavesMembers(s, init, e);
      var before := InsertLeaves(s, init);
      match Word(items[|items| - 1])
      case None =>
      case Some(w) =>
        assert e in Insert(before, Leaf(w)) <==> e in Elems(before) + {Leaf(w)};
        if IsLeaf(e) {
          LeafOfStem(e);
        }
    }
  }

  /** The proper prefixes of the words `ws`, all together. */
  function AllPrefixes(ws: seq<string>): set<string>
  {
    if ws == [] then {} else AllPrefixes(ws[..|ws| - 1]) + Prefixes(ws[|ws| - 1])
  }

  /** A string in `AllPrefixes(ws)` is a proper prefix of one of the words ... */
  lemma {:induction false} AllPrefixesWitness(ws: seq<string>, e: string) returns (w: string)
    requires e in AllPrefixes(ws)
    ensures w in ws && e in Prefixes(w)
  {
    var init := ws[..|ws| - 1];
    if e in AllPrefixes(init) {
      w := AllPrefixesWitness(init, e);
      assert w in init;
    } else {
      w := ws[|ws| - 1];
    }
  }

  /** ... and every proper prefix of one of the words is in it. */
  lemma {:induction false} AllPrefixesHas(ws: seq<string>, w: string, e: string)
    requires w in ws && e in Prefixes(w)
    ensures e in AllPrefixes(ws)
  {
    var init := ws[..|ws| - 1];
    if w != ws[|ws| - 1] {
      assert w in init by {
        var k :| 0 <= k < |ws| && ws[k] == w;
        assert init[k] == w;
      }
      AllPrefixesHas(init, w, e);
    }
  }

  /** The prefix ZADDs store exactly the proper prefixes of the words. */
  lemma {:induction false} InsertAllPrefixesMembers(s: seq<string>, ws: seq<string>)
    requires Sorted(s)
    ensures Elems(InsertAllPrefixes(s, ws)) == Elems(s) + AllPrefixes(ws)
  {
    if ws != [] {
      var init := ws[..|ws| - 1];
      var w := ws[|ws| - 1];
      InsertAllPrefixesMembers(s, init);
      InsertPrefixesMembers(InsertAllPrefixes(s, init), w, |w|);
      assert (set j | 0 <= j < |w| :: w[..j]) == Prefixes(w);
    }
  }

  /**
    What `addList` stores: the old entries, the leaf of every listed word, and
    the proper prefixes of the words whose leaf was new.
   */
  lemma AddAllMembers(s: seq<string>, items: seq<Value>, e: string)
    requires Sorted(s)
    ensures e in AddAll(s, items) <==> e in s || (IsLeaf(e) && Stem(e) in WordsOf(items)) || e in AllPrefixes(NewWords(s, items))
  {
    InsertLeavesMembers(s, items, e);
    InsertAllPrefixesMembers(InsertLeaves(s, items), NewWords(s, items));
    assert e in AddAll(s, items) <==> e in Elems(AddAll(s, items));
    assert e in InsertLeaves(s, items) <==> e in Elems(InsertLeaves(s, items));
  }

  /**
    `addList` reports exactly the listed words whose leaf was not stored before,
    whatever the words hold: every leaf ZADD goes out before any prefix ZADD.
   */
  lemma {:induction false} NewWordsExactly(s: seq<string>, items: seq<Value>, w: string)
    requires Sorted(s)
    ensures w in NewWords(s, items) <==> Leaf(w) !in s && w in WordsOf(items)
  {
    if items != [] {
      var init := items[..|items| - 1];
      NewWordsExactly(s, init, w);
      InsertLeavesMembers(s, init, Leaf(w));
    }
  }

  /** `addList` reports each word once, even when the list repeats it. */
  lemma {:induction false} NewWordsDistinct(s: seq<string>, items: seq<Value>)
    requires Sorted(s)
    ensures forall i, j :: 0 <= i < j < |NewWords(s, items)| ==> NewWords(s, items)[i] != NewWords(s, items)[j]
  {
    if items != [] {
      var init := items[..|items| - 1];
      NewWordsDistinct(s, init);
      var prior := NewWords(s, init);
      var w := Word(items[|items| - 1]);
      if w.Some? && Leaf(w.value) !in InsertLeaves(s, init) {
        var x := w.value;
        forall i | 0 <= i < |prior| ensures prior[i] != x {
          if prior[i] == x {
            NewWordsExactly(s, init, x);
            InsertLeavesMembers(s, init, Leaf(x));
          }
        }
      }
    }
  }

  /** A reported word's leaf is stored after `addList`. */
  lemma NewWordsStored(s: seq<string>, items: seq<Value>, w: string)
    requires Sorted(s) && w in NewWords(s, items)
    ensures Leaf(w) in AddAll(s, items)
  {
    NewWordsExactly(s, items, w);
    AddAllMembers(s, items, Leaf(w));
  }

  /** No leaf entry is a proper prefix of a marker-free word. */
  lemma LeafNotPrefix(w: string, x: string)
    requires MARKER !in w
    ensures Leaf(x) !in Prefixes(w)
  {
    forall i | 0 <= i < |w| ensures w[..i] != Leaf(x) {
      if i == |x| + 1 {
        assert w[..i][|x|] == w[|x|];
      }
    }
  }

  /** After `addList`, the stored words are the old ones and the list's words. */
  lemma AddAllLeaves(s: seq<string>, items: seq<Value>, x: string)
    requires Sorted(s) && MarkerFreeWords(items)
    ensures Leaf(x) in AddAll(s, items) <==> Leaf(x) in s || x in WordsOf(items)
  {
    AddAllMembers(s, items, Leaf(x));
    if Leaf(x) in AllPrefixes(NewWords(s, items)) {
      var w := AllPrefixesWitness(NewWords(s, items), Leaf(x));
      NewWordsExactly(s, items, w);
      MarkerFreeWordsOf(items, w);
      LeafNotPrefix(w, x);
    }
  }

  /** Every word of a list of marker-free words is a non-empty marker-free string. */
  lemma MarkerFreeWordsOf(items: seq<Value>, w: string)
    requires MarkerFreeWords(items) && w in WordsOf(items)
    ensures |w| > 0 && MARKER !in w
  {
    var k := WordsOfWitness(items, w);
  }

  /** An entry of a dictionary, or a leaf or prefix that `addList` stores, keeps its chain of prefixes. */
  lemma AddAllEntryClosed(s: seq<string>, items: seq<Value>, e: string)
    requires Dictionary(s) && MarkerFreeWords(items) && e in AddAll(s, items)
    ensures PrefixesStored(AddAll(s, items), e) && MARKER !in Stem(e)
  {
    var t := AddAll(s, items);
    var ws := NewWords(s, items);
    AddAllMembers(s, items, e);
    if e in s {
      assert MARKER !in Stem(e);
      forall j | 0 <= j < |Stem(e)| ensures e[..j] in t {
        AddAllMembers(s, items, e[..j]);
      }
    } else if IsLeaf(e) && Stem(e) in WordsOf(items) {
      var w := Stem(e);
      MarkerFreeWordsOf(items, w);
      LeafOfStem(e);
      NewWordsExactly(s, items, w);
      forall j | 0 <= j < |w| ensures e[..j] in t {
        assert e[..j] == w[..j] && w[..j] in Prefixes(w);
        if Leaf(w) !in s {
          AllPrefixesHas(ws, w, e[..j]);
        }
        AddAllMembers(s, items, e[..j]);
      }
    } else {
      var w := AllPrefixesWitness(ws, e);
      NewWordsExactly(s, items, w);
      MarkerFreeWordsOf(items, w);
      var i :| 0 <= i < |w| && e == w[..i];
      assert i > 0 ==> e[i - 1] == w[i - 1];
      assert Stem(e) == e;
      forall j | 0 <= j < i ensures e[..j] in t {
        assert e[..j] == w[..j] && w[..j] in Prefixes(w);
        AllPrefixesHas(ws, w, e[..j]);
        AddAllMembers(s, items, e[..j]);
      }
    }
  }

  /** `addList` of marker-free words keeps the dictionary invariant. */
  lemma AddAllKeepsDictionary(s: seq<string>, items: seq<Value>)
    requires Dictionary(s) && MarkerFreeWords(items)
    ensures Dictionary(AddAll(s, items))
  {
    var t := AddAll(s, items);
    forall e | e in t ensures PrefixesStored(t, e) && MARKER !in Stem(e) {
      AddAllEntryClosed(s, items, e);
    }
    AddAllRooted(s, items);
  }

  /** After `addList` on a dictionary, the empty prefix is stored if anything is. */
  lemma AddAllRooted(s: seq<string>, items: seq<Value>)
    requires Dictionary(s) && MarkerFreeWords(items)
    ensures Rooted(AddAll(s, items))
  {
    var t := AddAll(s, items);
    if t != [] {
      var e := t[0];
      AddAllMembers(s, items, e);
      if e in s {
        AddAllMembers(s, items, "");
      } else if IsLeaf(e) && Stem(e) in WordsOf(items) {
        MarkerFreeWordsOf(items, Stem(e));
        AddAllEntryClosed(s, items, e);
        assert e[..0] == "";
      } else {
        var ws := NewWords(s, items);
        var w := AllPrefixesWitness(ws, e);
        NewWordsExactly(s, items, w);
        MarkerFreeWordsOf(items, w);
        assert w[..0] == "";
        AllPrefixesHas(ws, w, "");
        AddAllMembers(s, items, "");
      }
    }
  }
}
