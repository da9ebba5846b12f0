/**
 * The older practice modes of study-guide.jsx. Its quiz builds distractors
 * with eleven guarded pushes (some in `else if` chains), strips only the acute
 * accent, and does not pad: a question gets the word and at most three
 * distractors. Its spell and listen modes accept only an exact match after
 * trimming.
 */
module StudyGuide {
  import opened Text
  import opened Seqs
  import opened Rewrites
  import Misspellings
  import Spelling

  /**
   * The pushes of `generateMisspellings`, in order. An `else if` branch
   * becomes a rule whose guard also says that the earlier branches failed.
   */
  const StudyRules: seq<Rule> := [
    Rule([Changes], DropMarks(AcuteOnly)),
    Rule([Has("b")], Replace("b", "v")),
    Rule([Lacks("b"), Has("v")], Replace("v", "b")),
    Rule([Has("h")], Replace("h", "")),
    Rule([Has("rr")], Replace("rr", "r")),
    Rule([Lacks("rr"), Has("ll")], Replace("ll", "l")),
    Rule([Lacks("rr"), Lacks("ll"), Has("cc")], Replace("cc", "c")),
    Rule([Lacks("á"), Has("a")], Replace("a", "á")),
    Rule([Has("ü")], Replace("ü", "u")),
    Rule([Has("c"), Lacks("ch")], ReplaceAt('c', BeforeEOrI, "s")),
    Rule([Has("z")], Replace("z", "s"))
  ]

  /** `[...new Set(results)].filter(r => r !== word)`: no cap on the count. */
  function StudyMisspellings(word: string): (r: seq<string>)
    ensures word !in r
    ensures NoDup(r)
    ensures |r| <= |StudyRules|
    ensures InFirstOccurrenceOrder(r, Run(StudyRules, word))
    ensures forall v :: v in Run(StudyRules, word) && v != word ==> v in r
  {
    var results := Run(StudyRules, word);
    DistinctOrder(results);
    WithoutKeepsOrder(Distinct(results), results, word);
    Without(Distinct(results), word)
  }

  /** With no cap, every rule that fires with a value other than the word has that value offered. */
  lemma StudyOffersRule(word: string, k: nat)
    requires k < |StudyRules| && Fires(StudyRules[k], word) && Apply(StudyRules[k].edit, word) != word
    ensures Apply(StudyRules[k].edit, word) in StudyMisspellings(word)
  {
    RunPushes(StudyRules, word, k);
  }

  /** `generateMisspellings(word)` of the study guide. */
  method GenerateStudyMisspellings(word: string) returns (r: seq<string>)
    ensures r == StudyMisspellings(word)
  {
    var results := RunRules(StudyRules, word);
    r := Without(Distinct(results), word);
  }

  /** Only one of `b` -> `v` and `v` -> `b` is pushed. */
  lemma StudyBOrV(word: string)
    ensures !(Fires(StudyRules[1], word) && Fires(StudyRules[2], word))
  {
    if Fires(StudyRules[2], word) {
      assert Holds(StudyRules[2].tests[0], word, Apply(StudyRules[2].edit, word));
      assert !Holds(StudyRules[1].tests[0], word, Apply(StudyRules[1].edit, word));
    }
  }

  /** Of `rr`, `ll` and `cc` only the first present is reduced. */
  lemma StudyDoubleLetters(word: string)
    ensures !(Fires(StudyRules[4], word) && Fires(StudyRules[5], word))
    ensures !(Fires(StudyRules[4], word) && Fires(StudyRules[6], word))
    ensures !(Fires(StudyRules[5], word) && Fires(StudyRules[6], word))
  {
    if Fires(StudyRules[5], word) {
      assert Holds(StudyRules[5].tests[0], word, Apply(StudyRules[5].edit, word));
      assert !Holds(StudyRules[4].tests[0], word, Apply(StudyRules[4].edit, word));
    }
    if Fires(StudyRules[6], word) {
      assert Holds(StudyRules[6].tests[0], word, Apply(StudyRules[6].edit, word));
      assert Holds(StudyRules[6].tests[1], word, Apply(StudyRules[6].edit, word));
      assert !Holds(StudyRules[4].tests[0], word, Apply(StudyRules[4].edit, word));
      assert !Holds(StudyRules[5].tests[1], word, Apply(StudyRules[5].edit, word));
    }
  }

  /** The accent-free variant removes only U+0301: `ü` and `ñ` are kept. */
  lemma StudyNoAccentKeeps(word: string, c: char)
    requires c in word && (c == 'ü' || c == 'ñ')
    ensures c in Apply(StudyRules[0].edit, word)
  {
    StripMarksKeeps(word, AcuteOnly, c);
  }

  /** A lower-case ASCII word without any letter a rule looks for. */
  predicate Quiet(word: string) {
    forall i :: 0 <= i < |word| ==> 'a' <= word[i] <= 'z' && word[i] !in "abchlrvz"
  }

  lemma QuietFirst(word: string, k: nat)
    requires Quiet(word) && k < 4
    ensures !Fires(StudyRules[k], word)
  {
    if k == 0 {
      AsciiFixes(word, AcuteOnly);
      assert !Holds(StudyRules[0].tests[0], word, Apply(StudyRules[0].edit, word));
    } else if k == 1 {
      NotContains(word, "b");
      assert !Holds(StudyRules[1].tests[0], word, Apply(StudyRules[1].edit, word));
    } else if k == 2 {
      NotContains(word, "v");
      assert !Holds(StudyRules[2].tests[1], word, Apply(StudyRules[2].edit, word));
    } else {
      NotContains(word, "h");
      assert !Holds(StudyRules[3].tests[0], word, Apply(StudyRules[3].edit, word));
    }
  }

  lemma QuietMiddle(word: string, k: nat)
    requires Quiet(word) && 4 <= k < 8
    ensures !Fires(StudyRules[k], word)
  {
    if k == 4 {
      NotContains(word, "rr");
      assert !Holds(StudyRules[4].tests[0], word, Apply(StudyRules[4].edit, word));
    } else if k == 5 {
      NotContains(word, "ll");
      assert !Holds(StudyRules[5].tests[1], word, Apply(StudyRules[5].edit, word));
    } else if k == 6 {
      NotContains(word, "cc");
      assert !Holds(StudyRules[6].tests[2], word, Apply(StudyRules[6].edit, word));
    } else {
      NotContains(word, "a");
      assert !Holds(StudyRules[7].tests[1], word, Apply(StudyRules[7].edit, word));
    }
  }

  lemma QuietLast(word: string, k: nat)
    requires Quiet(word) && 8 <= k < |StudyRules|
    ensures !Fires(StudyRules[k], word)
  {
    if k == 8 {
      NotContains(word, "ü");
      assert !Holds(StudyRules[8].tests[0], word, Apply(StudyRules[8].edit, word));
    } else if k == 9 {
      NotContains(word, "c");
      assert !Holds(StudyRules[9].tests[0], word, Apply(StudyRules[9].edit, word));
    } else {
      NotContains(word, "z");
      assert !Holds(StudyRules[10].tests[0], word, Apply(StudyRules[10].edit, word));
    }
  }

  /** `[w.word, ...misspellings.slice(0, 3)]`, before the shuffle. */
  function StudyOptions(word: string): (r: seq<string>)
    ensures 1 <= |r| <= 4 && r[0] == word
    ensures |r| == 1 + if |StudyMisspellings(word)| < 3 then |StudyMisspellings(word)| else 3
    ensures r[1..] <= StudyMisspellings(word)
    ensures NoDup(r)
  {
    var ms := StudyMisspellings(word);
    NoDupPrefix(Take(ms, 3), ms);
    Misspellings.Options(word, ms)
  }

  /**
   * With no padding, a word on which no rule fires ("mes", "dos", "uno")
   * gets a question whose only option is the word itself.
   */
  lemma QuietWordAlone(word: string)
    requires Quiet(word)
    ensures StudyMisspellings(word) == []
    ensures StudyOptions(word) == [word]
  {
    forall k | 0 <= k < |StudyRules|
      ensures !Fires(StudyRules[k], word)
    {
      if k < 4 {
        QuietFirst(word, k);
      } else if k < 8 {
        QuietMiddle(word, k);
      } else {
        QuietLast(word, k);
      }
    }
    RunNone(StudyRules, word);
  }

  /** `checkAnswer`: a blank input is ignored (None); otherwise exact match after trimming. */
  function StudyCheckAnswer(input: string, word: string): (r: Option<bool>)
    ensures r.None? <==> AllSpace(input)
    ensures r == Some(true) <==> !AllSpace(input) && Trim(input) == word
  {
    if Trim(input) == [] then None else Some(Trim(input) == word)
  }

  /** Every answer the study guide accepts the app accepts too. */
  lemma StudyStricterThanApp(input: string, word: string)
    requires StudyCheckAnswer(input, word) == Some(true)
    ensures Spelling.CheckAnswer(input, word) == Some(true)
  {
  }

  /**
   * The converse fails exactly on answers that differ from the word only in
   * case or accents: the app accepts them and the study guide does not.
   */
  lemma AppAcceptsMore(input: string, word: string)
    requires Spelling.CheckAnswer(input, word) == Some(true)
    ensures StudyCheckAnswer(input, word) == Some(false) <==> Trim(input) != word
  {
  }
}
