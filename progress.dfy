/**
 * The practice ledger of src/hooks/useProgress.js: for every word practised,
 * how many answers were right and wrong and when it was last seen, and the
 * statistics the word list and the menus derive from it. `Date.now()` is the
 * parameter `now`; the stored JSON is a `Blob`.
 */
module Progress {
  import opened Percent

  /** One word's record: `{correct, wrong, lastSeen}`. */
  datatype Entry = Entry(correct: nat, wrong: nat, lastSeen: int)

  /** `localStorage.getItem(...)` after `JSON.parse`: absent, unparseable, or an object. */
  datatype Blob = Missing | Malformed | Stored(ledger: map<string, Entry>)

  /** `loadProgress`: the stored object, or `{}` when there is none or it does not parse. */
  function LoadProgress(blob: Blob): (r: map<string, Entry>)
    ensures blob.Stored? ==> r == blob.ledger
    ensures !blob.Stored? ==> r == map[]
  {
    match blob
    case Stored(ledger) => ledger
    case _ => map[]
  }

  /** The entry a word starts from: `prev[word] || {correct: 0, wrong: 0, lastSeen: 0}`. */
  function EntryOf(p: map<string, Entry>, word: string): Entry {
    if word in p then p[word] else Entry(0, 0, 0)
  }

  function Total(e: Entry): nat {
    e.correct + e.wrong
  }

  /** The ledger after `recordResult(word, correct)` at time `now`. */
  function Recorded(p: map<string, Entry>, word: string, correct: bool, now: int): (r: map<string, Entry>)
    ensures r.Keys == p.Keys + {word}
    ensures r[word].lastSeen == now
    ensures correct ==> r[word].correct == EntryOf(p, word).correct + 1 && r[word].wrong == EntryOf(p, word).wrong
    ensures !correct ==> r[word].correct == EntryOf(p, word).correct && r[word].wrong == EntryOf(p, word).wrong + 1
    ensures forall w :: w in p && w != word ==> r[w] == p[w]
  {
    var e := EntryOf(p, word);
    p[word := Entry(e.correct + (if correct then 1 else 0), e.wrong + (if correct then 0 else 1), now)]
  }

  /** What `getWordStats` returns (the `lastSeen` spread from the entry is not kept). */
  datatype Stats = Stats(correct: nat, wrong: nat, total: nat, accuracy: nat, mastered: bool)

  /**
   * `getWordStats(word)`: accuracy is the rounded percentage of right answers,
   * and a word is mastered with three right answers and a rounded accuracy of
   * at least 80.
   */
  function WordStats(p: map<string, Entry>, word: string): (s: Stats)
    ensures word !in p ==> s == Stats(0, 0, 0, 0, false)
    ensures word in p ==> s.correct == p[word].correct && s.wrong == p[word].wrong
    ensures s.total == s.correct + s.wrong
    ensures s.accuracy <= 100
    ensures s.total == 0 ==> s.accuracy == 0
    ensures s.total > 0 ==> s.accuracy == RoundPercent(s.correct, s.total)
    ensures s.mastered <==> s.correct >= 3 && 200 * s.correct >= 159 * s.total
  {
    if word !in p then Stats(0, 0, 0, 0, false)
    else
      var e := p[word];
      var total := e.correct + e.wrong;
      if total == 0 then Stats(e.correct, e.wrong, 0, 0, false)
      else
        RoundPercentBounds(e.correct, total);
        RoundPercentAtLeast(e.correct, total, 80);
        var accuracy := RoundPercent(e.correct, total);
        Stats(e.correct, e.wrong, total, accuracy, e.correct >= 3 && accuracy >= 80)
  }

  /** Recording an answer adds one attempt to that word and leaves every other word's statistics alone. */
  lemma RecordedStats(p: map<string, Entry>, word: string, correct: bool, now: int, other: string)
    ensures WordStats(Recorded(p, word, correct, now), word).total == WordStats(p, word).total + 1
    ensures other != word ==> WordStats(Recorded(p, word, correct, now), other) == WordStats(p, other)
  {
  }

  /** A rounded percentage does not drop when the exact ratio does not. */
  lemma {:induction false} RoundPercentMonotone(n1: nat, d1: nat, n2: nat, d2: nat)
    requires d1 > 0 && d2 > 0
    requires n2 * d1 <= n1 * d2
    ensures RoundPercent(n2, d2) <= RoundPercent(n1, d1)
  {
    var r := RoundPercent(n2, d2);
    assert 2 * d2 * r <= 200 * n2 + d2;
    assert d1 * (2 * d2 * r) <= d1 * (200 * n2 + d2) by {
      MulMonotone(d1, 2 * d2 * r, 200 * n2 + d2);
    }
    assert d1 * (200 * n2 + d2) == 200 * (n2 * d1) + d1 * d2;
    assert 200 * (n2 * d1) <= 200 * (n1 * d2);
    assert d2 * (2 * d1 * r) <= d2 * (200 * n1 + d1);
    if 2 * d1 * r > 200 * n1 + d1 {
      MulMonotone(d2, 200 * n1 + d1 + 1, 2 * d1 * r);
    }
    RoundPercentAtLeast(n1, d1, r);
  }

  /** One more right answer: c/t to (c+1)/(t+1), which is not smaller. */
  lemma RoundPercentRight(c: nat, t: nat)
    requires 0 < t && c <= t
    ensures RoundPercent(c, t) <= RoundPercent(c + 1, t + 1)
  {
    assert c * (t + 1) == c * t + c;
    assert (c + 1) * t == c * t + t;
    RoundPercentMonotone(c + 1, t + 1, c, t);
  }

  /** One more wrong answer: c/t to c/(t+1), which is not larger. */
  lemma RoundPercentWrong(c: nat, t: nat)
    requires 0 < t
    ensures RoundPercent(c, t + 1) <= RoundPercent(c, t)
  {
    assert c * (t + 1) == c * t + c;
    RoundPercentMonotone(c, t, c, t + 1);
  }

  /** A right answer never lowers a word's accuracy. */
  lemma RightAnswerAccuracy(p: map<string, Entry>, word: string, now: int)
    ensures WordStats(Recorded(p, word, true, now), word).accuracy >= WordStats(p, word).accuracy
  {
    var before, after := WordStats(p, word), WordStats(Recorded(p, word, true, now), word);
    if before.total > 0 {
      RoundPercentRight(before.correct, before.total);
    }
  }

  /** A wrong answer never raises a word's accuracy. */
  lemma WrongAnswerAccuracy(p: map<string, Entry>, word: string, now: int)
    ensures WordStats(Recorded(p, word, false, now), word).accuracy <= WordStats(p, word).accuracy
  {
    var before, after := WordStats(p, word), WordStats(Recorded(p, word, false, now), word);
    if before.total > 0 {
      RoundPercentWrong(before.correct, before.total);
    } else {
      RoundPercentBounds(0, 1);
    }
  }

  /** The test of `getMasteredCount`: three right answers and an unrounded ratio of at least 80 percent. */
  predicate MasteredExactly(e: Entry) {
    e.correct >= 3 && 5 * e.correct >= 4 * Total(e)
  }

  lemma {:induction false} SubsetCard<T>(a: set<T>, b: set<T>)
    requires a <= b
    ensures |a| <= |b|
    decreases |a|
  {
    if a != {} {
      var x :| x in a;
      SubsetCard(a - {x}, b - {x});
    }
  }

  /** `getMasteredCount()`: how many entries pass the unrounded test. */
  function MasteredCount(p: map<string, Entry>): (n: nat)
    ensures n <= |p|
  {
    var s := set w | w in p && MasteredExactly(p[w]);
    SubsetCard(s, p.Keys);
    |s|
  }

  /** The unrounded test is the stricter one: every word it counts `getWordStats` calls mastered. */
  lemma MasteredCountAtMost(p: map<string, Entry>)
    ensures MasteredCount(p) <= |set w | w in p && WordStats(p, w).mastered|
  {
    SubsetCard(set w | w in p && MasteredExactly(p[w]), set w | w in p && WordStats(p, w).mastered);
  }

  /**
   * 35 right and 9 wrong is 79.5 percent: `getWordStats` rounds it to 80 and
   * calls the word mastered, while `getMasteredCount` does not count it.
   */
  lemma RoundingDisagreement()
    ensures WordStats(map["hola" := Entry(35, 9, 0)], "hola").mastered
    ensures WordStats(map["hola" := Entry(35, 9, 0)], "hola").accuracy == 80
    ensures MasteredCount(map["hola" := Entry(35, 9, 0)]) == 0
  {
    var p := map["hola" := Entry(35, 9, 0)];
    assert (set w | w in p && MasteredExactly(p[w])) == {};
  }

  /** What `getCategoryStats` returns. */
  datatype CategoryStats = CategoryStats(mastered: nat, practiced: nat, total: nat, percent: nat)

  /** How many of the words have been practised at least once. */
  function PracticedIn(p: map<string, Entry>, words: seq<string>): (n: nat)
    ensures n <= |words|
  {
    if words == [] then 0
    else PracticedIn(p, words[..|words| - 1]) + (if WordStats(p, words[|words| - 1]).total > 0 then 1 else 0)
  }

  /** How many of the words are mastered, by `getWordStats`. */
  function MasteredIn(p: map<string, Entry>, words: seq<string>): (n: nat)
    ensures n <= PracticedIn(p, words)
  {
    if words == [] then 0
    else MasteredIn(p, words[..|words| - 1]) + (if WordStats(p, words[|words| - 1]).mastered then 1 else 0)
  }

  /** The positions of `words` holding a word that `f` accepts. */
  ghost function Where(words: seq<string>, f: string -> bool): set<int>
  {
    set i | 0 <= i < |words| && f(words[i])
  }

  /** Adding a word at the end adds its position exactly when `f` accepts it. */
  lemma WhereSnoc(words: seq<string>, f: string -> bool)
    requires words != []
    ensures var n := |words| - 1;
      n !in Where(words[..n], f)
      && Where(words, f) == Where(words[..n], f) + (if f(words[n]) then {n} else {})
  {
    var n := |words| - 1;
    assert forall i :: 0 <= i < n ==> words[..n][i] == words[i];
  }

  /** The positions holding a practised word. */
  ghost function PracticedAt(p: map<string, Entry>, words: seq<string>): set<int>
  {
    Where(words, w => WordStats(p, w).total > 0)
  }

  /** The positions holding a mastered word. */
  ghost function MasteredAt(p: map<string, Entry>, words: seq<string>): set<int>
  {
    Where(words, w => WordStats(p, w).mastered)
  }

  /** `PracticedIn` counts exactly the positions holding a practised word. */
  lemma {:induction false} PracticedInCounts(p: map<string, Entry>, words: seq<string>)
    ensures PracticedIn(p, words) == |PracticedAt(p, words)|
  {
    if words != [] {
      PracticedInCounts(p, words[..|words| - 1]);
      WhereSnoc(words, w => WordStats(p, w).total > 0);
    }
  }

  /** `MasteredIn` counts exactly the positions holding a mastered word. */
  lemma {:induction false} MasteredInCounts(p: map<string, Entry>, words: seq<string>)
    ensures MasteredIn(p, words) == |MasteredAt(p, words)|
  {
    if words != [] {
      MasteredInCounts(p, words[..|words| - 1]);
      WhereSnoc(words, w => WordStats(p, w).mastered);
    }
  }

  /** The tallies of `getCategoryStats` and their rounded percentage, 0 for an empty category. */
  function Category(p: map<string, Entry>, words: seq<string>): (r: CategoryStats)
    ensures r.mastered == MasteredIn(p, words) && r.practiced == PracticedIn(p, words)
    ensures r.mastered <= r.practiced <= r.total == |words|
    ensures |words| > 0 ==> r.percent == RoundPercent(r.mastered, |words|)
    ensures r.percent <= 100
    ensures |words| == 0 ==> r.percent == 0
    ensures |words| > 0 && r.mastered == |words| ==> r.percent == 100
  {
    var m, n := MasteredIn(p, words), |words|;
    if n == 0 then CategoryStats(m, PracticedIn(p, words), 0, 0)
    else
      RoundPercentBounds(m, n);
      CategoryStats(m, PracticedIn(p, words), n, RoundPercent(m, n))
  }

  /** The ledger state of `useProgress`. */
  class Ledger {
    var progress: map<string, Entry>

    /** `useState(loadProgress)`. */
    constructor(blob: Blob)
      ensures progress == LoadProgress(blob)
    {
      progress := LoadProgress(blob);
    }

    /** `recordResult(word, correct)`, the only update of an entry. */
    method RecordResult(word: string, correct: bool, now: int)
      modifies this
      ensures progress == Recorded(old(progress), word, correct, now)
    {
      var entry := if word in progress then progress[word] else Entry(0, 0, 0);
      progress := progress[word := Entry(entry.correct + (if correct then 1 else 0), entry.wrong + (if correct then 0 else 1), now)];
    }

    /** `getCategoryStats(categoryWords)`: one pass counting practised and mastered words. */
    method GetCategoryStats(words: seq<string>) returns (r: CategoryStats)
      ensures r == Category(progress, words)
    {
      var mastered, practiced := 0, 0;
      for i := 0 to |words|
        invariant mastered == MasteredIn(progress, words[..i])
        invariant practiced == PracticedIn(progress, words[..i])
      {
        assert words[..i + 1][..i] == words[..i];
        var stats := WordStats(progress, words[i]);
        if stats.total > 0 {
          practiced := practiced + 1;
        }
        if stats.mastered {
          mastered := mastered + 1;
        }
      }
      assert words[..|words|] == words;
      var percent := if |words| > 0 then RoundPercent(mastered, |words|) else 0;
      r := CategoryStats(mastered, practiced, |words|, percent);
    }

    /** `resetProgress()`. */
    method ResetProgress()
      modifies this
      ensures progress == map[]
    {
      progress := map[];
    }
  }
}
