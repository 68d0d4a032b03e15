/** The Trie of Trie.ts, as a tree value. A node carries a character
    `value`, an `isWord` flag and a `dictionary` from characters to child
    nodes; the word spelt by a path is the sequence of edge characters from
    the root. `Add` rebuilds the path it walks; `Search` walks it the way the
    source does. */
module Tries {
  import opened Ordering

  datatype Trie = Trie(value: string, isWord: bool, dictionary: map<char, Trie>)

  /** `new Trie(value)`: not a word, no children. */
  function New(value: string): (t: Trie)
    ensures t.value == value && !t.isWord && t.dictionary == map[]
  {
    Trie(value, false, map[])
  }

  /** Whether `t` has a child for `c`. */
  function HasAdjacent(t: Trie, c: char): (r: bool)
    ensures r <==> c in t.dictionary
  {
    c in t.dictionary
  }

  /** The child of `t` for `c`, or None (the source's undefined). */
  function Get(t: Trie, c: char): (child: Option<Trie>)
    ensures child.Some? <==> c in t.dictionary
    ensures child.Some? ==> child.value == t.dictionary[c]
  {
    if c in t.dictionary then Some(t.dictionary[c]) else None
  }

  /** The node that the path spelling `word` leads to from `root`, if every
      character on it has a child. */
  function Walk(root: Trie, word: string): Option<Trie>
    decreases |word|
  {
    if word == [] then Some(root)
    else if word[0] in root.dictionary then Walk(root.dictionary[word[0]], word[1..])
    else None
  }

  /** What `search(word, wholeWord, root)` answers: false as soon as a
      character has no child; at the end of the path, the node's flag when
      `wholeWord` is set and true otherwise. So a word is found exactly when
      its path exists and, for a whole word, ends at a flagged node. */
  function Lookup(root: Trie, word: string, wholeWord: bool): (found: bool)
    ensures found <==> Walk(root, word).Some? && (wholeWord ==> Walk(root, word).value.isWord)
    decreases |word|
  {
    if word == [] then (if wholeWord then root.isWord else true)
    else if word[0] in root.dictionary then Lookup(root.dictionary[word[0]], word[1..], wholeWord)
    else false
  }

  /** `add(word, root)`: walks `word` from `root`, creating a fresh node for
      each missing character, and flags the node reached. */
  function Add(root: Trie, word: string): (r: Trie)
    ensures r.value == root.value
    ensures r.isWord == (root.isWord || word == [])
    ensures r.dictionary.Keys == root.dictionary.Keys + (if word == [] then {} else {word[0]})
    ensures forall c :: c in root.dictionary && (word == [] || c != word[0]) ==>
      r.dictionary[c] == root.dictionary[c]
    decreases |word|
  {
    if word == [] then root.(isWord := true)
    else
      var c := word[0];
      var child := if c in root.dictionary then root.dictionary[c] else New([c]);
      root.(dictionary := root.dictionary[c := Add(child, word[1..])])
  }

  /** `search(word, wholeWord, root)`: the loop of the source over the
      characters of `word`, returning exactly `Lookup`. */
  method Search(root: Trie, word: string, wholeWord: bool) returns (found: bool)
    ensures found == Lookup(root, word, wholeWord)
  {
    var current := root;
    var i := 0;
    while i < |word|
      invariant 0 <= i <= |word|
      invariant Lookup(root, word, wholeWord) == Lookup(current, word[i..], wholeWord)
    {
      var c := word[i];
      assert word[i..][0] == c && word[i..][1..] == word[i + 1..];
      if !HasAdjacent(current, c) {
        return false;
      }
      current := Get(current, c).value;
      i := i + 1;
    }
    assert word[i..] == [];
    return if wholeWord then current.isWord else true;
  }

  /** A new node holds the empty prefix and nothing else. */
  lemma NewHoldsOnlyEmptyPrefix(value: string, word: string, wholeWord: bool)
    ensures Lookup(New(value), word, wholeWord) <==> word == [] && !wholeWord
  {
  }

  /** After `add(w)`, the whole words found are exactly the earlier ones and `w`. */
  lemma {:induction false} AddWords(root: Trie, w: string, v: string)
    ensures Lookup(Add(root, w), v, true) <==> v == w || Lookup(root, v, true)
    decreases |w|
  {
    if w != [] && v != [] {
      var c := w[0];
      var child := if c in root.dictionary then root.dictionary[c] else New([c]);
      if v[0] == c {
        AddWords(child, w[1..], v[1..]);
        NewHoldsOnlyEmptyPrefix([c], v[1..], true);
        assert v == w <==> v[1..] == w[1..] by {
          if v[1..] == w[1..] {
            assert v == [c] + v[1..] && w == [c] + w[1..];
          }
        }
      }
    }
  }

  /** After `add(w)`, the prefixes found are exactly the earlier ones and the
      prefixes of `w`. */
  lemma {:induction false} AddPrefixes(root: Trie, w: string, v: string)
    ensures Lookup(Add(root, w), v, false) <==> v <= w || Lookup(root, v, false)
    decreases |w|
  {
    if w != [] && v != [] {
      var c := w[0];
      var child := if c in root.dictionary then root.dictionary[c] else New([c]);
      if v[0] == c {
        AddPrefixes(child, w[1..], v[1..]);
        NewHoldsOnlyEmptyPrefix([c], v[1..], false);
        assert v <= w <==> v[1..] <= w[1..] by {
          if v[1..] <= w[1..] {
            assert v == [c] + v[1..] && w == [c] + w[1..];
          }
        }
      }
    }
  }

  /** After `add(w)`, `search(w)` is true. */
  lemma AddThenSearch(root: Trie, w: string)
    ensures Lookup(Add(root, w), w, true)
  {
    AddWords(root, w, w);
  }

  /** After `add(w)`, every prefix of `w` is found with `wholeWord` false. */
  lemma AddThenSearchPrefix(root: Trie, w: string, k: nat)
    requires k <= |w|
    ensures Lookup(Add(root, w), w[..k], false)
  {
    AddPrefixes(root, w, w[..k]);
  }

  /** Adding never loses a word or a prefix found before. */
  lemma AddKeeps(root: Trie, w: string, v: string, wholeWord: bool)
    ensures Lookup(root, v, wholeWord) ==> Lookup(Add(root, w), v, wholeWord)
  {
    if wholeWord {
      AddWords(root, w, v);
    } else {
      AddPrefixes(root, w, v);
    }
  }

  /** Adding a word twice is the same as adding it once. */
  lemma {:induction false} AddIdempotent(root: Trie, w: string)
    ensures Add(Add(root, w), w) == Add(root, w)
    decreases |w|
  {
    if w != [] {
      var c := w[0];
      var child := if c in root.dictionary then root.dictionary[c] else New([c]);
      AddIdempotent(child, w[1..]);
    }
  }

  /** A search fails, whatever the flag, once a prefix of the word has no
      path; equivalently, a found word has all of its prefixes found. */
  lemma {:induction false} SearchStopsAtMissingChild(root: Trie, w: string, wholeWord: bool, k: nat)
    requires k <= |w|
    ensures !Lookup(root, w[..k], false) ==> !Lookup(root, w, wholeWord)
    decreases k
  {
    if k > 0 && w[0] in root.dictionary {
      assert w[..k][0] == w[0] && w[..k][1..] == w[1..][..k - 1];
      SearchStopsAtMissingChild(root.dictionary[w[0]], w[1..], wholeWord, k - 1);
    }
  }

  /** Every child's `value` is the one-character string of its edge. */
  ghost predicate Labelled(t: Trie)
  {
    forall c :: c in t.dictionary ==> t.dictionary[c].value == [c] && Labelled(t.dictionary[c])
  }

  /** `add` keeps every node labelled by its edge character. */
  lemma {:induction false} AddKeepsLabels(root: Trie, w: string)
    requires Labelled(root)
    ensures Labelled(Add(root, w)) && Add(root, w).value == root.value
    decreases |w|
  {
    if w != [] {
      var c := w[0];
      var child := if c in root.dictionary then root.dictionary[c] else New([c]);
      AddKeepsLabels(child, w[1..]);
    }
  }

  /** Some word of `words` starts with `v`. */
  ghost predicate PrefixOfSome(v: string, words: seq<string>)
  {
    exists j :: 0 <= j < |words| && v <= words[j]
  }

  /** Adds `words` in order to a new trie: the whole words found are then
      exactly `words`, and the prefixes found exactly the empty string and
      the prefixes of `words`. */
  method AddAll(value: string, words: seq<string>) returns (t: Trie)
    ensures forall v :: Lookup(t, v, true) <==> v in words
    ensures forall v :: Lookup(t, v, false) <==> v == [] || PrefixOfSome(v, words)
  {
    t := New(value);
    forall v
      ensures Lookup(t, v, true) <==> v in words[..0]
      ensures Lookup(t, v, false) <==> v == [] || PrefixOfSome(v, words[..0])
    {
      NewHoldsOnlyEmptyPrefix(value, v, true);
      NewHoldsOnlyEmptyPrefix(value, v, false);
    }
    for i := 0 to |words|
      invariant forall v :: Lookup(t, v, true) <==> v in words[..i]
      invariant forall v :: Lookup(t, v, false) <==> v == [] || PrefixOfSome(v, words[..i])
    {
      assert words[..i + 1] == words[..i] + [words[i]];
      forall v
        ensures Lookup(Add(t, words[i]), v, true) <==> v in words[..i + 1]
        ensures Lookup(Add(t, words[i]), v, false) <==> v == [] || PrefixOfSome(v, words[..i + 1])
      {
        AddWords(t, words[i], v);
        AddPrefixes(t, words[i], v);
        if v <= words[i] {
          assert words[..i + 1][i] == words[i];
        }
        if PrefixOfSome(v, words[..i + 1]) && !(v <= words[i]) {
          var j :| 0 <= j < i + 1 && v <= words[..i + 1][j];
          assert j < i && words[..i + 1][j] == words[..i][j];
        }
      }
      t := Add(t, words[i]);
    }
    assert words[..|words|] == words;
  }

  /** The documented session: after adding "hello", "goodbye" and "helpful",
      "hello" is a word, "help" is a prefix but not a word, and "hex" is
      neither. */
  method DocumentedSession() returns (hello: bool, helpPrefix: bool, helpWord: bool, hex: bool)
    ensures hello && helpPrefix && !helpWord && !hex
  {
    var words := ["hello", "goodbye", "helpful"];
    var dictionary := AddAll("", words);
    assert "help" <= words[2];
    assert "hex"[2] != words[0][2] && "hex"[0] != words[1][0] && "hex"[2] != words[2][2];
    hello := Search(dictionary, "hello", true);
    helpPrefix := Search(dictionary, "help", false);
    helpWord := Search(dictionary, "help", true);
    hex := Search(dictionary, "hex", false);
  }
}
