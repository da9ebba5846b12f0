/**
 * Distractors for the multiple-choice quiz of src/App.jsx: `generateMisspellings`
 * runs fifteen rules over a word and keeps at most six distinct results other
 * than the word; `QuizMode.buildQuiz` pads that list to three distractors and
 * puts the word in front of the first three.
 */
module Misspellings {
  import opened Text
  import opened Seqs
  import opened Rewrites

  /** The rules of `generateMisspellings`, in the order they push. */
  const AppRules: seq<Rule> := [
    Rule([Changes], DropMarks(AcuteAndDiaeresis)),
    Rule([Has("b")], Replace("b", "v")),
    Rule([Has("v")], Replace("v", "b")),
    Rule([Has("h"), NotStarting("ch")], Replace("h", "")),
    Rule([Has("rr")], Replace("rr", "r")),
    Rule([Has("ll")], Replace("ll", "l")),
    Rule([Has("cc")], Replace("cc", "c")),
    Rule([Has("ü")], Replace("ü", "u")),
    Rule([Has("z")], Replace("z", "s")),
    Rule([HasMatch('c', BeforeEOrI)], ReplaceAt('c', BeforeEOrI, "s")),
    Rule([Has("y"), NotStarting("y")], Replace("y", "ll")),
    Rule([Has("ll")], Replace("ll", "y")),
    Rule([Has("ñ")], Replace("ñ", "n")),
    Rule([Lacks("á"), Has("a")], ReplaceAt('a', NotAtEnd, "á")),
    Rule([Lacks("é"), Has("e")], Replace("e", "é"))
  ]

  /** `word.normalize("NFD")`, then U+0301 and U+0308 deleted, then `normalize("NFC")`. */
  function NoAccent(word: string): (r: string)
    ensures forall i :: 0 <= i < |r| ==> Bare(r[i], AcuteAndDiaeresis)
  {
    StripMarksBare(word, AcuteAndDiaeresis);
    Apply(AppRules[0].edit, word)
  }

  /** Only the acute accent and the diaeresis are removed: the tilde of `ñ` stays. */
  lemma NoAccentKeepsEnye(word: string)
    requires 'ñ' in word
    ensures 'ñ' in NoAccent(word)
  {
    StripMarksKeeps(word, AcuteAndDiaeresis, 'ñ');
  }

  /** Every rule but accent removal substitutes at most two characters by at most two. */
  lemma AppRulesAreSmall()
    ensures AppRules[0].edit == DropMarks(AcuteAndDiaeresis)
    ensures forall k :: 1 <= k < |AppRules| ==> IsSmall(AppRules[k].edit)
  {
  }

  /** `[...new Set(results)].filter(r => r !== word).slice(0, 6)`. */
  function Misspellings(word: string): (r: seq<string>)
    ensures word !in r
    ensures NoDup(r)
    ensures |r| <= 6
    ensures InFirstOccurrenceOrder(r, Run(AppRules, word))
  {
    var results := Run(AppRules, word);
    var kept := Without(Distinct(results), word);
    DistinctOrder(results);
    WithoutKeepsOrder(Distinct(results), results, word);
    TakeKeepsOrder(kept, results, 6);
    WithoutNoDup(Distinct(results), word);
    NoDupPrefix(Take(kept, 6), kept);
    Take(kept, 6)
  }

  /** `generateMisspellings(word)`. */
  method GenerateMisspellings(word: string) returns (r: seq<string>)
    ensures r == Misspellings(word)
  {
    var results := RunRules(AppRules, word);
    var unique := Distinct(results);
    r := Take(Without(unique, word), 6);
  }

  /** Each misspelling is the accent-free word or a substitution of at most two characters. */
  lemma MisspellingIsSmallEdit(word: string, i: nat)
    requires i < |Misspellings(word)|
    ensures Misspellings(word)[i] == NoAccent(word) || IsSmallEdit(word, Misspellings(word)[i])
  {
    var results := Run(AppRules, word);
    var m := Misspellings(word)[i];
    var j := FirstIndex(results, m);
    var k := RunFrom(AppRules, word, j);
    AppRulesAreSmall();
    if k > 0 {
      ApplySmall(AppRules[k].edit, word);
    }
  }

  /**
   * A rule that fires with a value other than the word has that value among
   * the de-duplicated results, and it is offered exactly when fewer than six
   * other values come before it there.
   */
  lemma MisspellingsOfferRule(word: string, k: nat)
    requires k < |AppRules| && Fires(AppRules[k], word) && Apply(AppRules[k].edit, word) != word
    ensures var kept, v := Without(Distinct(Run(AppRules, word)), word), Apply(AppRules[k].edit, word);
      v in kept && (v in Misspellings(word) <==> FirstIndex(kept, v) < 6)
  {
    RunPushes(AppRules, word, k);
    var results := Run(AppRules, word);
    var v := Apply(AppRules[k].edit, word);
    var j :| 0 <= j < |results| && results[j] == v;
    var unique := Distinct(results);
    assert v in unique;
    var u :| 0 <= u < |unique| && unique[u] == v;
    var kept := Without(unique, word);
    assert v in kept;
    var f := FirstIndex(kept, v);
    if |kept| > 6 {
      assert Misspellings(word) == kept[..6];
      if f < 6 {
        assert kept[..6][f] == v;
      }
      if v in kept[..6] {
        var i :| 0 <= i < 6 && kept[..6][i] == v;
        assert kept[i] == v;
      }
    }
  }

  // ─── buildQuiz: padding to three distractors ───────────────────────────────

  /** `s.split("").reverse().join("")`. */
  function Reverse(s: string): (r: string)
    ensures |r| == |s|
    ensures forall i :: 0 <= i < |s| ==> r[i] == s[|s| - 1 - i]
  {
    if s == [] then [] else [s[|s| - 1]] + Reverse(s[..|s| - 1])
  }

  /** `s.slice(0, -1)`. */
  function DropLast(s: string): (r: string)
    ensures |s| > 0 ==> r == s[..|s| - 1]
    ensures |s| == 0 ==> r == []
  {
    if s == [] then [] else s[..|s| - 1]
  }

  /** `s.slice(1)`. */
  function DropFirst(s: string): (r: string)
    ensures |s| > 0 ==> r == s[1..]
    ensures |s| == 0 ==> r == []
  {
    if s == [] then [] else s[1..]
  }

  /** The padding candidates tried in order: reversed, last letter dropped, an "s" added. */
  function Swaps(word: string): seq<string> {
    [Reverse(word), DropLast(word), word + "s"]
  }

  /** The first candidate that is neither the word nor already a distractor. */
  function FirstFresh(cands: seq<string>, word: string, ms: seq<string>): (r: Option<string>)
    ensures r.Some? ==> r.value in cands && r.value != word && r.value !in ms
    ensures r.None? ==> forall i :: 0 <= i < |cands| ==> cands[i] == word || cands[i] in ms
    ensures r.Some? ==>
      exists j :: 0 <= j < |cands| && cands[j] == r.value
        && (forall i :: 0 <= i < j ==> cands[i] == word || cands[i] in ms)
    decreases |cands|
  {
    if cands == [] then None
    else if cands[0] != word && cands[0] !in ms then Some(cands[0])
    else
      var r := FirstFresh(cands[1..], word, ms);
      assert forall i :: 1 <= i < |cands| ==> cands[i] == cands[1..][i - 1];
      r
  }

  /** The list after the inner `for ... break`: the first fresh swap appended, if there is one. */
  function WithSwap(word: string, ms: seq<string>): (r: seq<string>)
    ensures FirstFresh(Swaps(word), word, ms).Some? ==> r == ms + [FirstFresh(Swaps(word), word, ms).value]
    ensures FirstFresh(Swaps(word), word, ms).None? ==> r == ms
  {
    match FirstFresh(Swaps(word), word, ms)
    case Some(s) => ms + [s]
    case None => ms
  }

  /** One pass of the `while` body: at most one new swap, then `word.slice(1)` if still short. */
  function PadStep(word: string, ms: seq<string>): (r: seq<string>)
    requires |ms| < 3
    ensures |ms| < |r| <= |ms| + 2 && |r| <= 3
    ensures r[..|ms|] == ms
    ensures forall i :: |ms| <= i < |r| ==> r[i] in Swaps(word) || r[i] == DropFirst(word)
    ensures |WithSwap(word, ms)| < 3 ==> r == WithSwap(word, ms) + [DropFirst(word)]
    ensures |WithSwap(word, ms)| >= 3 ==> r == WithSwap(word, ms)
  {
    var ms1 := WithSwap(word, ms);
    if |ms1| < 3 then ms1 + [DropFirst(word)] else ms1
  }

  /** `while (misspellings.length < 3) { ... }`, as written. */
  function Padded(word: string, ms: seq<string>): (r: seq<string>)
    ensures |r| >= 3 && |r| >= |ms|
    ensures r[..|ms|] == ms
    ensures |ms| >= 3 ==> r == ms
    ensures |ms| < 3 ==> |r| == 3
    ensures forall i :: |ms| <= i < |r| ==> r[i] in Swaps(word) || r[i] == DropFirst(word)
    decreases if |ms| < 3 then 3 - |ms| else 0
  {
    if |ms| >= 3 then ms
    else
      var next := PadStep(word, ms);
      var r := Padded(word, next);
      assert r[..|ms|] == r[..|next|][..|ms|];
      r
  }

  /**
   * `word.slice(1)` is pushed with no check against the list: a short list
   * that already holds it comes out of one pass holding it twice.
   */
  lemma PadStepRepeats(word: string, ms: seq<string>)
    requires |ms| <= 1 && DropFirst(word) in ms
    ensures !NoDup(PadStep(word, ms))
  {
    var r := PadStep(word, ms);
    assert r[0] == DropFirst(word) && r[|r| - 1] == DropFirst(word);
  }

  /** The padding loop of `buildQuiz`. */
  method PadMisspellings(word: string, ms0: seq<string>) returns (misspellings: seq<string>)
    ensures misspellings == Padded(word, ms0)
  {
    misspellings := ms0;
    while |misspellings| < 3
      invariant Padded(word, misspellings) == Padded(word, ms0)
      decreases 3 - |misspellings|
    {
      var before := misspellings;
      misspellings := TrySwaps(word, before);
      if |misspellings| < 3 {
        misspellings := misspellings + [DropFirst(word)];
      }
      assert misspellings == PadStep(word, before);
    }
  }

  /** The inner `for ... break` over the swaps: the first that is neither the word nor listed is pushed. */
  method TrySwaps(word: string, ms: seq<string>) returns (r: seq<string>)
    ensures r == WithSwap(word, ms)
  {
    r := ms;
    var swaps := [Reverse(word), DropLast(word), word + "s"];
    for j := 0 to |swaps|
      invariant r == ms
      invariant forall i :: 0 <= i < j ==> swaps[i] == word || swaps[i] in ms
    {
      var s := swaps[j];
      if s != word && !(s in r) {
        r := r + [s];
        FirstFreshIsFirst(swaps, word, ms, j);
        return;
      }
    }
  }

  lemma FirstFreshIsFirst(cands: seq<string>, word: string, ms: seq<string>, j: nat)
    requires j < |cands| && cands[j] != word && cands[j] !in ms
    requires forall i :: 0 <= i < j ==> cands[i] == word || cands[i] in ms
    ensures FirstFresh(cands, word, ms) == Some(cands[j])
  {
    var r := FirstFresh(cands, word, ms);
    var k :| 0 <= k < |cands| && cands[k] == r.value && forall i :: 0 <= i < k ==> cands[i] == word || cands[i] in ms;
  }

  /** `[w.word, ...misspellings.slice(0, 3)]`, before the shuffle. */
  function Options(word: string, distractors: seq<string>): (r: seq<string>)
    ensures |r| == 1 + if |distractors| < 3 then |distractors| else 3
    ensures r[0] == word
    ensures r[1..] <= distractors
  {
    [word] + Take(distractors, 3)
  }

  /** The options of a question as written: the word and three padded distractors. */
  function QuizOptionsAsWritten(word: string): (r: seq<string>)
    ensures |r| == 4 && r[0] == word
    ensures forall i :: 0 <= i < |Misspellings(word)| && i < 3 ==> r[i + 1] == Misspellings(word)[i]
  {
    Options(word, Padded(word, Misspellings(word)))
  }

  /**
   * When the rules leave only `word.slice(1)`, the padding pushes it a second
   * time: the reversed word is added first and, the list still being short,
   * `word.slice(1)` follows without a duplicate check.
   */
  lemma {:induction false} PadRepeatsDropFirst(word: string)
    requires Reverse(word) != word && Reverse(word) != DropFirst(word)
    ensures Padded(word, [DropFirst(word)]) == [DropFirst(word), Reverse(word), DropFirst(word)]
  {
    var ms := [DropFirst(word)];
    assert FirstFresh(Swaps(word), word, ms) == Some(Reverse(word));
    assert PadStep(word, ms) == [DropFirst(word), Reverse(word), DropFirst(word)];
  }

  /** No lookahead pattern matches a word without its character. */
  lemma NoMatchWithout(s: string, c: char, la: Lookahead)
    requires c !in s
    ensures FirstMatchFrom(s, c, la, 0).None?
  {
    forall k | 0 <= k < |s|
      ensures s[k] != c
    {
      assert s[k] in s;
    }
  }

  /** Accent removal leaves "hola" as it is, so rule 0 does not push. */
  lemma HolaKeepsMarks()
    ensures !Fires(AppRules[0], "hola")
  {
    AsciiFixes("hola", AcuteAndDiaeresis);
    assert !Holds(AppRules[0].tests[0], "hola", Apply(AppRules[0].edit, "hola"));
  }

  /** "hola" has an `h` and does not start with "ch", so rule 3 pushes. */
  lemma HolaDropsH()
    ensures Fires(AppRules[3], "hola")
  {
    var w := "hola";
    assert OccursAt(w, "h", 0);
    ContainsAt(w, "h", 0);
    assert w[0] != "ch"[0];
    FiresHasNotStarting(AppRules[3], w, "h", "ch");
  }

  /** A rule of the table guarded by `word.includes(p)` stays silent on a word without `p`. */
  lemma RuleSilentWithout(word: string, k: nat, i: nat, p: string)
    requires k < |AppRules| && i < |AppRules[k].tests| && AppRules[k].tests[i] == Has(p)
    requires !Contains(word, p)
    ensures !Fires(AppRules[k], word)
  {
    SilentWithout(AppRules[k], word, i, p);
  }

  /** A rule of the table guarded by a regular-expression test stays silent on a word without its character. */
  lemma RuleSilentNoMatch(word: string, k: nat, c: char, la: Lookahead)
    requires k < |AppRules| && AppRules[k].tests != [] && AppRules[k].tests[0] == HasMatch(c, la)
    requires c !in word
    ensures !Fires(AppRules[k], word)
  {
    NoMatchWithout(word, c, la);
    SilentNoMatch(AppRules[k], word, 0, c, la);
  }

  /** "hola" has an `a` and no `á`, so the `a(?!$)` rule's guard holds. */
  lemma HolaTriesA()
    ensures Fires(AppRules[13], "hola")
  {
    var w := "hola";
    NotContains(w, "á");
    assert OccursAt(w, "a", 3);
    ContainsAt(w, "a", 3);
    FiresLacksHas(AppRules[13], w, "á", "a");
  }

  /** For "hola" only the `h` rule and the `a(?!$)` rule fire. */
  lemma HolaFires(k: nat)
    requires k < |AppRules|
    ensures Fires(AppRules[k], "hola") <==> k == 3 || k == 13
  {
    var w := "hola";
    if k == 0 {
      HolaKeepsMarks();
    } else if k == 3 {
      HolaDropsH();
    } else if k == 13 {
      HolaTriesA();
    } else if k == 9 {
      RuleSilentNoMatch(w, 9, 'c', BeforeEOrI);
    } else if k == 5 || k == 11 {
      NotContainsPair(w, "ll");
      RuleSilentWithout(w, k, 0, "ll");
    } else {
      var i, p := HolaMissing(k);
      NotContains(w, p);
      RuleSilentWithout(w, k, i, p);
    }
  }

  /** For the other rules, a test `word.includes(p)` whose `p` starts with a letter "hola" lacks. */
  lemma HolaMissing(k: nat) returns (i: nat, p: string)
    requires k in {1, 2, 4, 6, 7, 8, 10, 12, 14}
    ensures k < |AppRules| && i < |AppRules[k].tests| && AppRules[k].tests[i] == Has(p)
    ensures p != [] && p[0] !in "hola"
  {
    i := if k == 14 then 1 else 0;
    p := AppRules[k].tests[i].p;
  }

  /** The `h` rule gives "ola"; the `a(?!$)` rule finds no `a` before the end and gives "hola" back. */
  lemma HolaValues()
    ensures Apply(AppRules[3].edit, "hola") == "ola"
    ensures Apply(AppRules[13].edit, "hola") == "hola"
  {
    HolaValueH();
    HolaValueA();
  }

  lemma HolaValueH()
    ensures Apply(AppRules[3].edit, "hola") == "ola"
  {
    var w := "hola";
    assert AppRules[3].edit == Replace("h", "");
    assert OccursAt(w, "h", 0);
    assert IndexOf(w, "h") == Some(0);
  }

  lemma HolaValueA()
    ensures Apply(AppRules[13].edit, "hola") == "hola"
  {
    var w := "hola";
    assert AppRules[13].edit == ReplaceAt('a', NotAtEnd, "á");
    assert !MatchesAt(w, 'a', NotAtEnd, 3);
    assert FirstMatchFrom(w, 'a', NotAtEnd, 3).None?;
  }

  /** A duplicate-free list whose every element is `x`, and which holds `x`, is `[x]`. */
  lemma OnlyElement<T>(xs: seq<T>, x: T)
    requires NoDup(xs) && x in xs
    requires forall i :: 0 <= i < |xs| ==> xs[i] == x
    ensures xs == [x]
  {
    assert xs[0] == xs[|xs| - 1];
  }

  /** Every value the rules push for "hola" is "ola" or "hola". */
  lemma HolaPushes(i: nat)
    requires i < |Run(AppRules, "hola")|
    ensures Run(AppRules, "hola")[i] in ["ola", "hola"]
  {
    var k := RunFrom(AppRules, "hola", i);
    HolaFires(k);
    HolaValues();
  }

  /** The `h` rule pushes "ola" for "hola". */
  lemma HolaPushesOla()
    ensures "ola" in Run(AppRules, "hola")
  {
    HolaValues();
    HolaFires(3);
    RunPushes(AppRules, "hola", 3);
  }

  /** A list holding `v` and otherwise only `word` keeps just `[v]` once deduplicated and filtered. */
  lemma OnlyDistractor(results: seq<string>, word: string, v: string)
    requires v != word && v in results
    requires forall i :: 0 <= i < |results| ==> results[i] in [v, word]
    ensures Without(Distinct(results), word) == [v]
  {
    var kept := Without(Distinct(results), word);
    assert v in kept;
    forall i | 0 <= i < |kept|
      ensures kept[i] == v
    {
      var j :| 0 <= j < |results| && results[j] == kept[i];
    }
    WithoutNoDup(Distinct(results), word);
    OnlyElement(kept, v);
  }

  /** For "hola" the rules give only "ola" ("hola" itself from the `a(?!$)` rule is filtered out). */
  lemma HolaMisspellings()
    ensures Misspellings("hola") == ["ola"]
  {
    HolaPushesOla();
    forall i | 0 <= i < |Run(AppRules, "hola")|
      ensures Run(AppRules, "hola")[i] in ["ola", "hola"]
    {
      HolaPushes(i);
    }
    OnlyDistractor(Run(AppRules, "hola"), "hola", "ola");
  }



  lemma HolaReverse()
    ensures Reverse("hola") == "aloh"
  {
    assert Reverse("h") == "h";
    assert Reverse("ho") == "oh";
    assert Reverse("hol") == "loh";
  }

  /** Padding "ola" for "hola": "aloh" is fresh, then "ola" is pushed again. */
  lemma HolaPadded()
    ensures Padded("hola", ["ola"]) == ["ola", "aloh", "ola"]
  {
    HolaReverse();
    assert DropFirst("hola") == "ola";
    PadRepeatsDropFirst("hola");
  }

  /** A question's options are the word followed by its first three padded distractors. */
  lemma OptionsOfPadded(word: string, ms: seq<string>, padded: seq<string>)
    requires Misspellings(word) == ms && Padded(word, ms) == padded && |padded| == 3
    ensures QuizOptionsAsWritten(word) == [word] + padded
  {
    assert Take(padded, 3) == padded;
  }

  /** The quiz question for "hola" offers "ola" twice. */
  lemma HolaRepeatsOption()
    ensures QuizOptionsAsWritten("hola") == ["hola", "ola", "aloh", "ola"]
  {
    HolaMisspellings();
    HolaPadded();
    OptionsOfPadded("hola", ["ola"], ["ola", "aloh", "ola"]);
  }

  // ─── Padding with distinct distractors ─────────────────────────────────────

  function MaxLength(ms: seq<string>): (r: nat)
    ensures forall i :: 0 <= i < |ms| ==> |ms[i]| <= r
  {
    if ms == [] then 0 else
      var m := MaxLength(ms[1..]);
      assert forall i :: 1 <= i < |ms| ==> ms[i] == ms[1..][i - 1];
      if |ms[0]| > m then |ms[0]| else m
  }

  /** A value longer than the word and than every distractor: the word with enough "s" added. */
  function Fresh(word: string, ms: seq<string>): (r: string)
    ensures r != word && r !in ms
  {
    word + seq(MaxLength(ms) + 1, _ => 's')
  }

  /** One pass that adds exactly one new distractor: the first fresh swap or `word.slice(1)`, else `Fresh`. */
  function PadStepDistinct(word: string, ms: seq<string>): (r: seq<string>)
    requires NoDup(ms) && word !in ms
    ensures |r| == |ms| + 1 && r[..|ms|] == ms
    ensures NoDup(r) && word !in r
  {
    var s := match FirstFresh(Swaps(word) + [DropFirst(word)], word, ms)
      case Some(s) => s
      case None => Fresh(word, ms);
    ms + [s]
  }

  /** Padding to three distractors, none equal to the word or to another. */
  function PaddedDistinct(word: string, ms: seq<string>): (r: seq<string>)
    requires NoDup(ms) && word !in ms
    ensures |r| == if |ms| < 3 then 3 else |ms|
    ensures r[..|ms|] == ms
    ensures NoDup(r) && word !in r
    decreases if |ms| < 3 then 3 - |ms| else 0
  {
    if |ms| >= 3 then ms
    else
      var next := PadStepDistinct(word, ms);
      var r := PaddedDistinct(word, next);
      assert r[..|ms|] == r[..|next|][..|ms|];
      r
  }

  /** The options of a question: the word and three distractors, all different. */
  function QuizOptions(word: string): (r: seq<string>)
    ensures |r| == 4 && r[0] == word
    ensures NoDup(r)
    ensures forall i :: 0 <= i < |Misspellings(word)| && i < 3 ==> r[i + 1] == Misspellings(word)[i]
  {
    var ds := PaddedDistinct(word, Misspellings(word));
    NoDupPrefix(Take(ds, 3), ds);
    Options(word, ds)
  }
}
