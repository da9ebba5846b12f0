/**
 * The favourite words of src/hooks/useFavorites.js. The JavaScript `Set`
 * keeps its elements in insertion order, and that order is what is saved, so
 * the set is a duplicate-free sequence: `add` appends, `delete` removes in
 * place.
 */
module Favorites {
  import opened Seqs

  /** `localStorage.getItem(...)` after `JSON.parse`: absent, unparseable, or a stored array. */
  datatype Blob = Missing | Malformed | Stored(words: seq<string>)

  /** `loadFavorites`: `new Set(stored || [])`, which keeps the first copy of a repeated word. */
  function LoadFavorites(blob: Blob): (r: seq<string>)
    ensures NoDup(r)
    ensures forall w :: w in r <==> blob.Stored? && w in blob.words
  {
    match blob
    case Stored(words) => Distinct(words)
    case _ => []
  }

  /** The set after `toggleFavorite(word)`: deleted if present, appended if absent. */
  function Toggled(favorites: seq<string>, word: string): (r: seq<string>)
    requires NoDup(favorites)
    ensures NoDup(r)
    ensures word in r <==> word !in favorites
    ensures forall w :: w != word ==> (w in r <==> w in favorites)
  {
    if word in favorites then
      WithoutNoDup(favorites, word);
      Without(favorites, word)
    else favorites + [word]
  }

  /** Removing a word just appended gives back the list it was appended to. */
  lemma {:induction false} WithoutAppended(xs: seq<string>, x: string)
    requires x !in xs
    ensures Without(xs + [x], x) == xs
    decreases |xs|
  {
    if xs == [] {
      assert Without([x], x) == Without([], x);
    } else {
      assert (xs + [x])[1..] == xs[1..] + [x];
      WithoutAppended(xs[1..], x);
      assert xs == [xs[0]] + xs[1..];
    }
  }

  /**
   * Toggling twice restores membership of every word; a word that was absent
   * leaves the list exactly as it was, and one that was present moves to the end.
   */
  lemma ToggleTwice(favorites: seq<string>, word: string)
    requires NoDup(favorites)
    ensures forall w :: w in Toggled(Toggled(favorites, word), word) <==> w in favorites
    ensures word !in favorites ==> Toggled(Toggled(favorites, word), word) == favorites
    ensures word in favorites ==> Toggled(Toggled(favorites, word), word) == Without(favorites, word) + [word]
  {
    if word !in favorites {
      WithoutAppended(favorites, word);
    }
  }

  /** The favourites state of `useFavorites`. */
  class FavoriteSet {
    var favorites: seq<string>

    ghost predicate Valid()
      reads this
    {
      NoDup(favorites)
    }

    /** `useState(loadFavorites)`. */
    constructor(blob: Blob)
      ensures Valid()
      ensures favorites == LoadFavorites(blob)
    {
      favorites := LoadFavorites(blob);
    }

    /** `isFavorite(word)`. */
    predicate IsFavorite(word: string)
      reads this
    {
      word in favorites
    }

    /** `toggleFavorite(word)`: copy the set, then `delete` or `add`. */
    method ToggleFavorite(word: string)
      requires Valid()
      modifies this
      ensures Valid()
      ensures favorites == Toggled(old(favorites), word)
      ensures IsFavorite(word) == !old(IsFavorite(word))
    {
      var next := favorites;
      if word in next {
        WithoutNoDup(next, word);
        next := Without(next, word);
      } else {
        next := next + [word];
      }
      favorites := next;
    }

    /** `clearFavorites()`. */
    method ClearFavorites()
      modifies this
      ensures Valid()
      ensures favorites == []
      ensures forall w :: !IsFavorite(w)
    {
      favorites := [];
    }
  }
}
