/**
 * Clicking a word in the word list of src/App.jsx starts a study round on the
 * filtered list with the clicked word moved to the front.
 */
module WordList {

  /** An entry of the word list: the word and its definition (the other fields play no part). */
  datatype Word = Word(word: string, definition: string)

  /** `xs` occurs in `ys` in order, possibly with gaps. */
  predicate SubsequenceOf<T(==)>(xs: seq<T>, ys: seq<T>)
    decreases |ys|
  {
    if xs == [] then true
    else if ys == [] then false
    else if xs[0] == ys[0] then SubsequenceOf(xs[1..], ys[1..])
    else SubsequenceOf(xs, ys[1..])
  }

  /** No two entries spell the same word. */
  predicate UniqueWords(list: seq<Word>) {
    forall i, j :: 0 <= i < j < |list| ==> list[i].word != list[j].word
  }

  /** `list.filter(fw => fw.word !== key)`. */
  function Others(list: seq<Word>, key: string): (r: seq<Word>)
    ensures forall i :: 0 <= i < |r| ==> r[i].word != key && r[i] in list
    ensures forall i :: 0 <= i < |list| && list[i].word != key ==> list[i] in r
  {
    if list == [] then []
    else
      var rest := Others(list[1..], key);
      assert forall i :: 1 <= i < |list| ==> list[i] == list[1..][i - 1];
      if list[0].word == key then rest else [list[0]] + rest
  }

  /** The filter keeps the order of the entries it keeps. */
  lemma {:induction false} OthersSubsequence(list: seq<Word>, key: string)
    ensures SubsequenceOf(Others(list, key), list)
    decreases |list|
  {
    if list != [] {
      var rest := Others(list[1..], key);
      OthersSubsequence(list[1..], key);
      if list[0].word == key {
        SkipHead(rest, list);
      } else {
        assert ([list[0]] + rest)[1..] == rest;
      }
    }
  }

  /** When no entry spells `key`, the filter changes nothing. */
  lemma {:induction false} OthersAbsent(list: seq<Word>, key: string)
    requires forall i :: 0 <= i < |list| ==> list[i].word != key
    ensures Others(list, key) == list
    decreases |list|
  {
    if list != [] {
      assert forall i :: 0 <= i < |list[1..]| ==> list[1..][i] == list[i + 1];
      OthersAbsent(list[1..], key);
      assert list == [list[0]] + list[1..];
    }
  }

  /** A subsequence of the tail is a subsequence of the whole. */
  lemma SkipHead<T>(xs: seq<T>, ys: seq<T>)
    requires ys != [] && SubsequenceOf(xs, ys[1..])
    ensures SubsequenceOf(xs, ys)
    decreases |ys|, 0
  {
    if xs != [] && xs[0] == ys[0] {
      SubsequenceTail(xs, ys[1..]);
    }
  }

  /** Dropping the first element keeps a subsequence. */
  lemma SubsequenceTail<T>(xs: seq<T>, ys: seq<T>)
    requires xs != [] && SubsequenceOf(xs, ys)
    ensures SubsequenceOf(xs[1..], ys)
    decreases |ys|, 1
  {
    if xs[0] != ys[0] {
      SubsequenceTail(xs, ys[1..]);
      SkipHead(xs[1..], ys);
    } else if xs[1..] != [] {
      SkipHead(xs[1..], ys);
    }
  }

  /** `[w, ...list.filter(fw => fw.word !== w.word)]`. */
  function Reorder(w: Word, list: seq<Word>): (r: seq<Word>)
    ensures |r| >= 1 && r[0] == w
    ensures forall i :: 1 <= i < |r| ==> r[i].word != w.word
    ensures SubsequenceOf(r[1..], list)
    ensures forall e :: e in list && e.word != w.word ==> e in r
  {
    var rest := Others(list, w.word);
    OthersSubsequence(list, w.word);
    assert ([w] + rest)[1..] == rest;
    [w] + rest
  }

  /** With unique words, filtering out a word in the list removes exactly that entry. */
  lemma {:induction false} OthersRemovesOne(list: seq<Word>, w: Word)
    requires UniqueWords(list) && w in list
    ensures multiset(Others(list, w.word)) + multiset{w} == multiset(list)
    decreases |list|
  {
    if list[0] == w {
      RemovesHead(list, w);
    } else {
      var tail := list[1..];
      UniqueTail(list);
      assert w in tail by {
        var j :| 0 <= j < |list| && list[j] == w;
        assert tail[j - 1] == w;
      }
      OthersRemovesOne(tail, w);
      RemovesLater(list, w);
    }
  }

  lemma UniqueTail(list: seq<Word>)
    requires list != [] && UniqueWords(list)
    ensures UniqueWords(list[1..])
  {
    assert forall i :: 0 <= i < |list| - 1 ==> list[1..][i] == list[i + 1];
  }

  /** The first entry spells `w.word`, and with unique words no other does. */
  lemma RemovesHead(list: seq<Word>, w: Word)
    requires list != [] && UniqueWords(list) && list[0] == w
    ensures multiset(Others(list, w.word)) + multiset{w} == multiset(list)
  {
    var tail := list[1..];
    assert Others(tail, w.word) == tail by {
      forall i | 0 <= i < |tail|
        ensures tail[i].word != w.word
      {
        assert tail[i] == list[i + 1];
      }
      OthersAbsent(tail, w.word);
    }
    assert Others(list, w.word) == tail;
    assert multiset(list) == multiset([w] + tail) == multiset{w} + multiset(tail) by {
      assert list == [w] + tail;
    }
  }

  /** The first entry is kept, and the tail loses exactly `w`. */
  lemma RemovesLater(list: seq<Word>, w: Word)
    requires list != [] && UniqueWords(list) && list[0] != w && w in list
    requires multiset(Others(list[1..], w.word)) + multiset{w} == multiset(list[1..])
    ensures multiset(Others(list, w.word)) + multiset{w} == multiset(list)
  {
    var tail, rest := list[1..], Others(list[1..], w.word);
    assert list[0].word != w.word by {
      var j :| 0 <= j < |list| && list[j] == w;
      assert list[0].word != list[j].word;
    }
    assert Others(list, w.word) == [list[0]] + rest;
    assert multiset([list[0]] + rest) == multiset{list[0]} + multiset(rest);
    assert multiset(list) == multiset([list[0]] + tail) == multiset{list[0]} + multiset(tail) by {
      assert list == [list[0]] + tail;
    }
  }

  /** A click on a listed word reorders the list: the same entries, the clicked one first. */
  lemma ReorderIsPermutation(w: Word, list: seq<Word>)
    requires UniqueWords(list) && w in list
    ensures multiset(Reorder(w, list)) == multiset(list)
  {
    OthersRemovesOne(list, w);
  }
}
