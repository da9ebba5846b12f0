/**
 * The distractor generators of the multiple-choice quiz, in src/App.jsx and
 * study-guide.jsx, are lists of guarded pushes: when a word passes a rule's
 * tests (it contains "b", it does not start with "ch", ...), the word with one
 * substitution applied is pushed onto `results`. Here each rule is data, and
 * one fold runs a rule list in order.
 */
module Rewrites {
  import opened Text

  // ─── Substitutions ─────────────────────────────────────────────────────────

  /** A one-character regular expression with a lookahead: `c(?=[ei])` or `a(?!$)`. */
  datatype Lookahead = BeforeEOrI | NotAtEnd

  predicate MatchesAt(s: string, c: char, la: Lookahead, k: nat) {
    k < |s| && s[k] == c
    && match la
       case BeforeEOrI => k + 1 < |s| && s[k + 1] in "ei"
       case NotAtEnd => k + 1 < |s|
  }

  /** The first index at or after `from` where the pattern matches. */
  function FirstMatchFrom(s: string, c: char, la: Lookahead, from: nat): (r: Option<nat>)
    requires from <= |s|
    ensures r.Some? ==> from <= r.value < |s| && MatchesAt(s, c, la, r.value)
    ensures r.Some? ==> forall k :: from <= k < r.value ==> !MatchesAt(s, c, la, k)
    ensures r.None? ==> forall k :: from <= k < |s| ==> !MatchesAt(s, c, la, k)
    decreases |s| - from
  {
    if from == |s| then None
    else if MatchesAt(s, c, la, from) then Some(from)
    else FirstMatchFrom(s, c, la, from + 1)
  }

  /** `s.replace(/c(?=[ei])/, rep)` or `s.replace(/a(?!$)/, rep)`: the first match only. */
  function ReplaceAhead(s: string, c: char, la: Lookahead, rep: string): (r: string)
    ensures FirstMatchFrom(s, c, la, 0).None? ==> r == s
    ensures FirstMatchFrom(s, c, la, 0).Some? ==>
      var k := FirstMatchFrom(s, c, la, 0).value; r == s[..k] + rep + s[k + 1..]
  {
    match FirstMatchFrom(s, c, la, 0)
    case None => s
    case Some(k) => s[..k] + rep + s[k + 1..]
  }

  /** `w` with the characters in `[i, j)` replaced by `rep`. */
  function Splice(w: string, i: nat, j: nat, rep: string): (r: string)
    requires i <= j <= |w|
    ensures |r| == |w| - (j - i) + |rep|
    ensures r[..i] == w[..i] && r[i + |rep|..] == w[j..]
  {
    w[..i] + rep + w[j..]
  }

  /** `c` is `w` with at most two adjacent characters replaced by at most two others. */
  ghost predicate IsSmallEdit(w: string, c: string) {
    exists i: nat, j: nat, rep: string {:trigger Splice(w, i, j, rep)} ::
      i <= j <= |w| && j - i <= 2 && |rep| <= 2 && c == Splice(w, i, j, rep)
  }

  // ─── Rules ─────────────────────────────────────────────────────────────────

  /** What a rule pushes: the word after one substitution, or after accent removal. */
  datatype Edit =
    | Replace(pattern: string, rep: string)            // word.replace(pattern, rep)
    | ReplaceAt(c: char, la: Lookahead, rep: string)   // word.replace(/c(?=[ei])/, rep) and the like
    | DropMarks(marks: MarkSet)                        // NFD, delete marks, NFC

  /** One test of a rule's guard. */
  datatype Test =
    | Has(p: string)                    // word.includes(p)
    | Lacks(p: string)                  // !word.includes(p)
    | NotStarting(p: string)            // !word.startsWith(p)
    | HasMatch(c: char, la: Lookahead)  // /c[ei]/.test(word)
    | Changes                           // the pushed value differs from the word

  datatype Rule = Rule(tests: seq<Test>, edit: Edit)

  function Apply(e: Edit, word: string): string {
    match e
    case Replace(p, rep) => ReplaceFirst(word, p, rep)
    case ReplaceAt(c, la, rep) => ReplaceAhead(word, c, la, rep)
    case DropMarks(ms) => StripMarks(word, ms)
  }

  predicate Holds(t: Test, word: string, value: string) {
    match t
    case Has(p) => Contains(word, p)
    case Lacks(p) => !Contains(word, p)
    case NotStarting(p) => !StartsWith(word, p)
    case HasMatch(c, la) => FirstMatchFrom(word, c, la, 0).Some?
    case Changes => value != word
  }

  /** The rule pushes for this word: every test of its guard holds. */
  predicate Fires(rule: Rule, word: string) {
    forall i :: 0 <= i < |rule.tests| ==> Holds(rule.tests[i], word, Apply(rule.edit, word))
  }

  /** `results` after running the rules in order. */
  function Run(rules: seq<Rule>, word: string): (r: seq<string>)
    ensures |r| <= |rules|
    decreases |rules|
  {
    if rules == [] then []
    else
      var last := rules[|rules| - 1];
      Run(rules[..|rules| - 1], word) + (if Fires(last, word) then [Apply(last.edit, word)] else [])
  }

  /** The last rule pushes onto what the rules before it pushed. */
  lemma RunLast(rules: seq<Rule>, word: string)
    requires rules != []
    ensures Run(rules, word) == Run(rules[..|rules| - 1], word) + Pushed(rules[|rules| - 1], word)
  {
  }

  /** What one rule pushes: its value when it fires, nothing otherwise. */
  function Pushed(rule: Rule, word: string): (r: seq<string>)
    ensures Fires(rule, word) ==> r == [Apply(rule.edit, word)]
    ensures !Fires(rule, word) ==> r == []
  {
    if Fires(rule, word) then [Apply(rule.edit, word)] else []
  }

  /** Every rule that fires has its value pushed. */
  lemma {:induction false} RunPushes(rules: seq<Rule>, word: string, k: nat)
    requires k < |rules| && Fires(rules[k], word)
    ensures Apply(rules[k].edit, word) in Run(rules, word)
    decreases |rules|
  {
    var init, last := rules[..|rules| - 1], rules[|rules| - 1];
    var v := Apply(rules[k].edit, word);
    RunLast(rules, word);
    if k < |init| {
      assert init[k] == rules[k];
      RunPushes(init, word, k);
      InLeft(Run(init, word), Pushed(last, word), v);
    } else {
      assert Pushed(last, word) == [v];
      InRight(Run(init, word), Pushed(last, word), v);
    }
  }

  lemma InLeft(xs: seq<string>, ys: seq<string>, v: string)
    requires v in xs
    ensures v in xs + ys
  {
    var i :| 0 <= i < |xs| && xs[i] == v;
    assert (xs + ys)[i] == v;
  }

  lemma InRight(xs: seq<string>, ys: seq<string>, v: string)
    requires ys == [v]
    ensures v in xs + ys
  {
    assert (xs + ys)[|xs|] == v;
  }

  /** A rule guarded by `word.includes(p)` stays silent on a word without `p`. */
  lemma SilentWithout(rule: Rule, word: string, i: nat, p: string)
    requires i < |rule.tests| && rule.tests[i] == Has(p) && !Contains(word, p)
    ensures !Fires(rule, word)
  {
    assert !Holds(rule.tests[i], word, Apply(rule.edit, word));
  }

  /** A rule guarded by a regular-expression test stays silent on a word the expression does not match. */
  lemma SilentNoMatch(rule: Rule, word: string, i: nat, c: char, la: Lookahead)
    requires i < |rule.tests| && rule.tests[i] == HasMatch(c, la) && FirstMatchFrom(word, c, la, 0).None?
    ensures !Fires(rule, word)
  {
    assert !Holds(rule.tests[i], word, Apply(rule.edit, word));
  }

  /** A rule guarded by `!word.includes(p) && word.includes(q)` fires on a word without `p` and with `q`. */
  lemma FiresLacksHas(rule: Rule, word: string, p: string, q: string)
    requires rule.tests == [Lacks(p), Has(q)] && !Contains(word, p) && Contains(word, q)
    ensures Fires(rule, word)
  {
  }

  /** A rule guarded by `word.includes(p) && !word.startsWith(q)` fires on a word with `p` that does not start with `q`. */
  lemma FiresHasNotStarting(rule: Rule, word: string, p: string, q: string)
    requires rule.tests == [Has(p), NotStarting(q)] && Contains(word, p) && !StartsWith(word, q)
    ensures Fires(rule, word)
  {
  }

  /** Every value pushed comes from a rule that fired. */
  lemma {:induction false} RunFrom(rules: seq<Rule>, word: string, i: nat) returns (k: nat)
    requires i < |Run(rules, word)|
    ensures k < |rules| && Fires(rules[k], word) && Run(rules, word)[i] == Apply(rules[k].edit, word)
    decreases |rules|
  {
    var init := rules[..|rules| - 1];
    if i < |Run(init, word)| {
      k := RunFrom(init, word, i);
      assert init[k] == rules[k];
    } else {
      k := |rules| - 1;
    }
  }

  /** A word no rule fires on gets no results. */
  lemma {:induction false} RunNone(rules: seq<Rule>, word: string)
    requires forall k :: 0 <= k < |rules| ==> !Fires(rules[k], word)
    ensures Run(rules, word) == []
    decreases |rules|
  {
    if rules != [] {
      var init := rules[..|rules| - 1];
      assert forall k :: 0 <= k < |init| ==> init[k] == rules[k];
      RunNone(init, word);
    }
  }

  /** The guarded pushes, one rule after another. */
  method RunRules(rules: seq<Rule>, word: string) returns (results: seq<string>)
    ensures results == Run(rules, word)
  {
    results := [];
    for k := 0 to |rules|
      invariant results == Run(rules[..k], word)
    {
      assert rules[..k + 1][..k] == rules[..k];
      var rule := rules[k];
      if Fires(rule, word) {
        results := results + [Apply(rule.edit, word)];
      }
    }
    assert rules[..|rules|] == rules;
  }

  // ─── Small edits ───────────────────────────────────────────────────────────

  /** A substitution of at most two characters by at most two. */
  predicate IsSmall(e: Edit) {
    match e
    case Replace(p, rep) => |p| <= 2 && |rep| <= 2
    case ReplaceAt(_, _, rep) => |rep| <= 2
    case DropMarks(_) => false
  }

  lemma ApplySmall(e: Edit, word: string)
    requires IsSmall(e)
    ensures IsSmallEdit(word, Apply(e, word))
  {
    match e
    case Replace(p, rep) =>
      if Contains(word, p) {
        var i := IndexOf(word, p).value;
        assert Apply(e, word) == Splice(word, i, i + |p|, rep);
      } else {
        assert word == Splice(word, 0, 0, []);
      }
    case ReplaceAt(c, la, rep) =>
      match FirstMatchFrom(word, c, la, 0)
      case Some(k) =>
        assert Apply(e, word) == Splice(word, k, k + 1, rep);
      case None =>
        assert word == Splice(word, 0, 0, []);
  }

  /** Whatever a rule list pushes is a small edit of the word or comes from a mark-removal rule. */
  lemma RunSmallEdits(rules: seq<Rule>, word: string, i: nat)
    requires i < |Run(rules, word)|
    ensures IsSmallEdit(word, Run(rules, word)[i])
      || exists k :: 0 <= k < |rules| && !IsSmall(rules[k].edit) && Run(rules, word)[i] == Apply(rules[k].edit, word)
  {
    var k := RunFrom(rules, word, i);
    if IsSmall(rules[k].edit) {
      ApplySmall(rules[k].edit, word);
    }
  }
}
