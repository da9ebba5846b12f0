/**
 * The spelling judgment of src/App.jsx: `compareSpelling` and the
 * `checkAnswer` of the spell and listen modes, which count an attempt as
 * correct when it is exact or differs from the target only in accents.
 * Similarity is kept in whole hundredths (0..100) instead of a float.
 */
module Spelling {
  import opened Text
  import opened EditDistance
  import opened Percent

  datatype Comparison = Comparison(exact: bool, accentClose: bool, similarity: nat)

  /** Attempt as compared: trimmed, then lower-cased. */
  function AttemptKey(attempt: string): string {
    Lower(Trim(attempt))
  }

  /** Target as compared: lower-cased, not trimmed. */
  function TargetKey(target: string): string {
    Lower(target)
  }

  function MaxLen(a: string, b: string): nat {
    if |a| >= |b| then |a| else |b|
  }

  /**
   * `Math.round((1 - dist / maxLen) * 100)` over the accent-stripped forms, or
   * 0 when both are empty.
   */
  function Similarity(aN: string, tN: string): (s: nat)
    ensures s <= 100
    ensures Lev(aN, tN) <= MaxLen(aN, tN)
    ensures MaxLen(aN, tN) > 0 ==> s == RoundPercent(MaxLen(aN, tN) - Lev(aN, tN), MaxLen(aN, tN))
    ensures MaxLen(aN, tN) == 0 ==> s == 0
  {
    var maxLen := MaxLen(aN, tN);
    LevAtMostMax(aN, tN);
    if maxLen > 0 then
      RoundPercentBounds(maxLen - Lev(aN, tN), maxLen);
      RoundPercent(maxLen - Lev(aN, tN), maxLen)
    else 0
  }

  /** `compareSpelling(attempt, target)`, with similarity in hundredths. */
  function Compare(attempt: string, target: string): (r: Comparison)
    ensures r.exact <==> AttemptKey(attempt) == TargetKey(target)
    ensures r.accentClose <==>
      AttemptKey(attempt) != TargetKey(target)
      && StripAccents(AttemptKey(attempt)) == StripAccents(TargetKey(target))
    ensures !(r.exact && r.accentClose)
    ensures r.exact ==> r.similarity == 100
    ensures r.accentClose ==> r.similarity == 95
    ensures r.similarity <= 100
  {
    var a, t := AttemptKey(attempt), TargetKey(target);
    if a == t then Comparison(true, false, 100)
    else
      var aN, tN := StripAccents(a), StripAccents(t);
      if aN == tN then Comparison(false, true, 95)
      else Comparison(false, false, Similarity(aN, tN))
  }

  /** How the spell and listen modes score a comparison: `cmp.exact || cmp.accentClose`. */
  predicate Accepted(c: Comparison) {
    c.exact || c.accentClose
  }

  /** An attempt is accepted exactly when it equals the target up to surrounding space, case and accents. */
  lemma AcceptedIffSameLetters(attempt: string, target: string)
    ensures Accepted(Compare(attempt, target)) <==> StripAccents(Trim(attempt)) == StripAccents(target)
  {
    StripAccentsIgnoresCase(Trim(attempt));
    StripAccentsIgnoresCase(target);
  }

  /**
   * When neither exact nor accent-close, the accent-stripped forms differ, so
   * at least one is non-empty, and the similarity is 100 * (1 - distance / maxLen)
   * rounded, which lies in [0, 100].
   */
  lemma FallthroughSimilarity(attempt: string, target: string)
    requires !Accepted(Compare(attempt, target))
    ensures var aN, tN := StripAccents(AttemptKey(attempt)), StripAccents(TargetKey(target));
      aN != tN && MaxLen(aN, tN) > 0 && Lev(aN, tN) <= MaxLen(aN, tN)
      && Compare(attempt, target).similarity == RoundPercent(MaxLen(aN, tN) - Lev(aN, tN), MaxLen(aN, tN))
  {
    var aN, tN := StripAccents(AttemptKey(attempt)), StripAccents(TargetKey(target));
    LevAtMostMax(aN, tN);
  }

  /** Different spellings score below 100 while the longer is under 200 letters. */
  lemma SimilarityBelowFull(aN: string, tN: string)
    requires aN != tN && MaxLen(aN, tN) < 200
    ensures Similarity(aN, tN) < 100
  {
    LevZeroIffEqual(aN, tN);
    LevAtMostMax(aN, tN);
    assert MaxLen(aN, tN) > 0;
    RoundPercentBelowFull(MaxLen(aN, tN) - Lev(aN, tN), MaxLen(aN, tN));
  }

  /** A wrong attempt never reaches similarity 100 while the longer stripped form is under 200 letters. */
  lemma WrongBelowFull(attempt: string, target: string)
    requires !Accepted(Compare(attempt, target))
    requires var aN, tN := StripAccents(AttemptKey(attempt)), StripAccents(TargetKey(target)); MaxLen(aN, tN) < 200
    ensures Compare(attempt, target).similarity < 100
  {
    var aN, tN := StripAccents(AttemptKey(attempt)), StripAccents(TargetKey(target));
    assert Compare(attempt, target).similarity == Similarity(aN, tN);
    SimilarityBelowFull(aN, tN);
  }

  /** The attempt's case does not matter. */
  lemma CompareIgnoresAttemptCase(attempt: string, target: string)
    ensures Compare(Lower(attempt), target) == Compare(attempt, target)
  {
    TrimLowerCommute(attempt);
    LowerIdempotent(Trim(attempt));
  }

  /** Accent mistakes are accepted: "ambon" for "ambón". */
  lemma AccentCloseExample()
    ensures Accepted(Compare("ambon", "ambón"))
  {
    AmbonSameLetters();
    AcceptedIffSameLetters("ambon", "ambón");
  }

  /** `checkAnswer`: a blank input is ignored (None); otherwise whether the attempt is accepted. */
  function CheckAnswer(input: string, target: string): (r: Option<bool>)
    ensures r.None? <==> AllSpace(input)
    ensures r == Some(true) <==> !AllSpace(input) && StripAccents(Trim(input)) == StripAccents(target)
  {
    AcceptedIffSameLetters(input, target);
    if Trim(input) == [] then None else Some(Accepted(Compare(input, target)))
  }
}
