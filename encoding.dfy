/**
  How the dictionary is laid out in the sorted set. A word `w` is stored as its
  leaf entry `w*`; every proper prefix of a stored word (the empty string
  included) is stored raw as a prefix entry. Words are trimmed and lower-cased
  before they are stored or looked up.
 */
module Encoding {

  import opened Lexicographic
  import opened SortedSet

  /** The terminal marker appended to a word to make its leaf entry. */
  const MARKER: char := '*'

  /** How many ranks one paging read asks for. */
  const RANGELEN: nat := 50

  /** An entry is a leaf when its last character is the marker (the empty entry is not). */
  predicate IsLeaf(e: string)
  {
    |e| > 0 && e[|e| - 1] == MARKER
  }

  /** The word an entry stands for: a leaf without its marker, a prefix entry as it is. */
  function Stem(e: string): string
  {
    if IsLeaf(e) then e[..|e| - 1] else e
  }

  /** The leaf entry of a word. */
  function Leaf(w: string): (e: string)
    ensures IsLeaf(e) && Stem(e) == w && |e| == |w| + 1
  {
    w + [MARKER]
  }

  lemma LeafOfStem(e: string)
    requires IsLeaf(e)
    ensures Leaf(Stem(e)) == e
  {
  }

  /**
    The marker sorts after the word it ends and before the word extended by any
    character above it (digits, letters), so `w < w* < w + c`.
   */
  lemma {:induction false} MarkerOrder(w: string, c: char)
    requires c > MARKER
    ensures Less(w, Leaf(w)) && Less(Leaf(w), w + [c])
  {
    PrefixLess(Leaf(w), w);
    if w != [] {
      assert Leaf(w)[1..] == Leaf(w[1..]) && (w + [c])[1..] == w[1..] + [c];
      MarkerOrder(w[1..], c);
    }
  }

  // ---------------------------------------------------------------------------
  // Normalisation: JavaScript's trim, then lower-casing

  /** The characters `trim` strips: ECMAScript WhiteSpace and LineTerminator. */
  predicate IsSpace(c: char)
  {
    c == '\t' || c == '\n' || c == '\U{B}' || c == '\U{C}' || c == '\r' || c == ' '
    || c == '\U{A0}' || c == '\U{1680}' || ('\U{2000}' <= c <= '\U{200A}')
    || c == '\U{2028}' || c == '\U{2029}' || c == '\U{202F}' || c == '\U{205F}'
    || c == '\U{3000}' || c == '\U{FEFF}'
  }

  /** The rank of the first character from `i` on that is not white space, or `|s|`. */
  function TrimStartIndex(s: string, i: nat): (j: nat)
    requires i <= |s|
    ensures i <= j <= |s|
    ensures forall k :: i <= k < j ==> IsSpace(s[k])
    ensures j < |s| ==> !IsSpace(s[j])
    decreases |s| - i
  {
    if i < |s| && IsSpace(s[i]) then TrimStartIndex(s, i + 1) else i
  }

  /** The end of `s[lo..j]` once the white space at its end is cut. */
  function TrimEndIndex(s: string, lo: nat, j: nat): (e: nat)
    requires lo <= j <= |s|
    ensures lo <= e <= j
    ensures forall k :: e <= k < j ==> IsSpace(s[k])
    ensures e > lo ==> !IsSpace(s[e - 1])
  {
    if j > lo && IsSpace(s[j - 1]) then TrimEndIndex(s, lo, j - 1) else j
  }

  /** JavaScript's trim: the slice of `s` left once surrounding white space is cut. */
  function Trim(s: string): (r: string)
    ensures r != [] ==> !IsSpace(r[0]) && !IsSpace(r[|r| - 1])
    ensures var i := TrimStartIndex(s, 0);
      && i + |r| <= |s| && r == s[i..i + |r|]
      && (forall k :: 0 <= k < i ==> IsSpace(s[k]))
      && (forall k :: i + |r| <= k < |s| ==> IsSpace(s[k]))
  {
    var i := TrimStartIndex(s, 0);
    s[i..TrimEndIndex(s, i, |s|)]
  }

  /** ASCII lower-casing of one character. */
  function LowerChar(c: char): char
  {
    if 'A' <= c <= 'Z' then (c as int - 'A' as int + 'a' as int) as char else c
  }

  /**
    JavaScript's lower-casing, for the ASCII letters: no capital is left, each
    capital becomes its small letter, and every other character stays.
   */
  function Lower(s: string): (r: string)
    ensures |r| == |s|
    ensures forall k :: 0 <= k < |r| ==> !('A' <= r[k] <= 'Z')
    ensures forall k :: 0 <= k < |s| && !('A' <= s[k] <= 'Z') ==> r[k] == s[k]
    ensures forall k :: 0 <= k < |s| && 'A' <= s[k] <= 'Z' ==> 'a' <= r[k] <= 'z' && r[k] as int - s[k] as int == 'a' as int - 'A' as int
  {
    seq(|s|, k requires 0 <= k < |s| => LowerChar(s[k]))
  }

  /** Lower-casing twice is lower-casing once. */
  lemma LowerIdempotent(s: string)
    ensures Lower(Lower(s)) == Lower(s)
  {
    var r := Lower(s);
    assert forall k :: 0 <= k < |r| ==> Lower(r)[k] == r[k];
  }

  /** How `add`, `complete` and `remove` normalise their argument: trimmed, then lower-cased. */
  function Normalize(s: string): string
  {
    Lower(Trim(s))
  }

  /** In a sorted set holding the empty string, it has rank 0. */
  lemma EmptyFirst(s: seq<string>)
    requires Sorted(s) && "" in s
    ensures s[0] == ""
  {
    var k :| 0 <= k < |s| && s[k] == "";
  }

  lemma TrimTrimmed(s: string)
    requires s != [] ==> !IsSpace(s[0]) && !IsSpace(s[|s| - 1])
    ensures Trim(s) == s
  {
  }

  /** Normalising twice is normalising once: a stored word looks itself up. */
  lemma NormalizeIdempotent(s: string)
    ensures Normalize(Normalize(s)) == Normalize(s)
  {
    var t := Trim(s);
    var n := Lower(t);
    assert forall c :: IsSpace(LowerChar(c)) <==> IsSpace(c);
    TrimTrimmed(n);
    assert Lower(n) == n;
  }

  // ---------------------------------------------------------------------------
  // The dictionary invariant

  /** The empty prefix entry is stored whenever anything is. */
  predicate Rooted(s: seq<string>)
  {
    s != [] ==> "" in s
  }

  /** Every proper prefix of the word `e` stands for is stored. */
  predicate PrefixesStored(s: seq<string>, e: string)
  {
    forall j :: 0 <= j < |Stem(e)| ==> e[..j] in s
  }

  /** Every entry has its whole chain of prefix entries. */
  predicate PrefixClosed(s: seq<string>)
  {
    forall e :: e in s ==> PrefixesStored(s, e)
  }

  /** The marker appears only as the last character of a leaf entry. */
  predicate MarkerFree(s: seq<string>)
  {
    forall e :: e in s ==> MARKER !in Stem(e)
  }

  /** What `add` and `remove` keep true of the sorted set. */
  predicate Dictionary(s: seq<string>)
  {
    Sorted(s) && Rooted(s) && PrefixClosed(s) && MarkerFree(s)
  }

  /** The proper prefixes of a word, the empty one included. */
  function Prefixes(w: string): (p: set<string>)
    ensures forall i :: 0 <= i < |w| ==> w[..i] in p
    ensures forall x :: x in p ==> |x| < |w| && StartsWith(w, x)
  {
    set i | 0 <= i < |w| :: w[..i]
  }

  /** The entries `add` stores for a new word: its leaf and its proper prefixes. */
  function Additions(w: string): set<string>
  {
    Prefixes(w) + {Leaf(w)}
  }

  /** Adding a marker-free word with all its entries keeps the dictionary invariant. */
  lemma AdditionKeepsDictionary(s: seq<string>, t: seq<string>, w: string)
    requires Dictionary(s) && Sorted(t) && |w| > 0 && MARKER !in w
    requires Elems(t) == Elems(s) + Additions(w)
    ensures Dictionary(t)
  {
    assert w[..0] in Prefixes(w);
    forall e | e in t
      ensures PrefixesStored(t, e) && MARKER !in Stem(e)
    {
      assert e in Elems(t);
      if e in s {
        assert e in Elems(s);
        forall j | 0 <= j < |Stem(e)| ensures e[..j] in t {
          assert e[..j] in Elems(s);
          assert e[..j] in Elems(t);
        }
      } else if e == Leaf(w) {
        forall j | 0 <= j < |w| ensures e[..j] in t {
          assert e[..j] == w[..j] && w[..j] in Elems(t);
        }
      } else {
        var i :| 0 <= i < |w| && e == w[..i];
        assert i > 0 ==> e[i - 1] == w[i - 1];
        assert Stem(e) == e;
        forall j | 0 <= j < i ensures e[..j] in t {
          assert e[..j] == w[..j] && w[..j] in Elems(t);
        }
      }
    }
  }

  /**
    Removing one leaf entry from a dictionary keeps the invariant: no other
    entry's chain goes through a leaf, because the marker only ends entries.
   */
  lemma LeafRemovalKeepsDictionary(s: seq<string>, t: seq<string>, w: string)
    requires Dictionary(s) && Sorted(t) && |w| > 0
    requires Elems(t) == Elems(s) - {Leaf(w)}
    ensures Dictionary(t)
  {
    assert "" != Leaf(w);
    if t != [] {
      assert t[0] in Elems(t);
      assert s != [];
      assert "" in s;
      assert "" in Elems(t);
    }
    forall e | e in t
      ensures PrefixesStored(t, e) && MARKER !in Stem(e)
    {
      assert e in Elems(t) && e in s;
      forall j | 0 <= j < |Stem(e)| ensures e[..j] in t {
        assert e[..j] in s && e[..j] in Elems(s);
        assert e[..j] in Elems(t);
      }
    }
  }

  /** In a dictionary, the only entry that begins with a word that is not stored is the word's leaf. */
  lemma OnlyLeafBegins(s: seq<string>, w: string, e: string)
    requires PrefixClosed(s) && e in s && w !in s && StartsWith(e, w)
    ensures e == Leaf(w)
  {
    assert PrefixesStored(s, e);
    assert e[..|w|] == w;
    assert |Stem(e)| <= |w|;
    assert e != w;
    assert IsLeaf(e) && |e| == |w| + 1;
    assert e == e[..|w|] + [e[|w|]];
  }
}
