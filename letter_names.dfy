/**
 * Voice spelling (src/App.jsx): a recognised utterance such as "be grande"
 * or "doble erre" is mapped to the letter it names. Multi-word names are
 * tried longest first, then an exact single-word name, then names contained
 * anywhere in the utterance, then a lone letter.
 */
module LetterNames {
  import opened Text

  /** One row of a name table: the spoken name and the letter(s) it stands for. */
  datatype Entry = Entry(name: string, letter: string)

  /** A recognised letter; `ambiguous` marks the names heard as either "b" or "v". */
  datatype LetterMatch = LetterMatch(letter: string, raw: string, ambiguous: bool)

  /** Membership in `BV_NAMES`. */
  predicate IsBV(name: string) {
    name == "be" || name == "ve" || name == "uve"
  }

  // ─── MULTI_KEYS: a stable sort by name length, longest first ───────────────

  predicate SortedByLength(s: seq<Entry>) {
    forall i, j :: 0 <= i < j < |s| ==> |s[i].name| >= |s[j].name|
  }

  /** The two sequences hold the same entries, each as often. */
  predicate SameEntries(a: seq<Entry>, b: seq<Entry>) {
    multiset(a) == multiset(b)
  }

  /** The entries whose name has length `n`, in order. */
  function OfLength(s: seq<Entry>, n: nat): (r: seq<Entry>)
    ensures forall i :: 0 <= i < |r| ==> |r[i].name| == n
    ensures |r| <= |s|
  {
    if s == [] then [] else (if |s[0].name| == n then [s[0]] else []) + OfLength(s[1..], n)
  }

  lemma {:induction false} OfLengthAppend(a: seq<Entry>, b: seq<Entry>, n: nat)
    ensures OfLength(a + b, n) == OfLength(a, n) + OfLength(b, n)
    decreases |a|
  {
    if a != [] {
      assert (a + b)[0] == a[0];
      assert (a + b)[1..] == a[1..] + b;
      OfLengthAppend(a[1..], b, n);
    } else {
      assert a + b == b;
    }
  }

  lemma {:induction false} OfLengthNone(s: seq<Entry>, n: nat)
    requires forall i :: 0 <= i < |s| ==> |s[i].name| < n
    ensures OfLength(s, n) == []
    decreases |s|
  {
    if s != [] {
      OfLengthNone(s[1..], n);
    }
  }

  /**
   * Inserts `e` into a longest-first sequence after every entry at least as
   * long, which is where a stable sort with comparator `b.length - a.length`
   * leaves an entry that came last.
   */
  function InsertByLength(e: Entry, s: seq<Entry>): (r: seq<Entry>)
    ensures multiset(r) == multiset(s) + multiset{e}
    decreases |s|
  {
    if s == [] then [e]
    else
      assert s == [s[0]] + s[1..];
      if |s[0].name| >= |e.name| then [s[0]] + InsertByLength(e, s[1..])
      else [e] + s
  }

  /** Inserting into a longest-first sequence keeps it longest first. */
  lemma {:induction false} InsertByLengthSorted(e: Entry, s: seq<Entry>)
    requires SortedByLength(s)
    ensures SortedByLength(InsertByLength(e, s))
    decreases |s|
  {
    if s != [] {
      if |s[0].name| >= |e.name| {
        var rest := InsertByLength(e, s[1..]);
        assert s == [s[0]] + s[1..];
        InsertByLengthSorted(e, s[1..]);
        forall i | 0 <= i < |rest|
          ensures |s[0].name| >= |rest[i].name|
        {
          assert rest[i] in multiset(rest);
          if rest[i] != e {
            assert rest[i] in multiset(s[1..]);
            var j :| 0 <= j < |s[1..]| && s[1..][j] == rest[i];
            assert s[j + 1] == rest[i];
          }
        }
        SortedCons(s[0], rest);
      } else {
        SortedCons(e, s);
      }
    }
  }

  /** An entry at least as long as every entry of a sorted list can go in front. */
  lemma SortedCons(x: Entry, s: seq<Entry>)
    requires SortedByLength(s)
    requires forall i :: 0 <= i < |s| ==> |x.name| >= |s[i].name|
    ensures SortedByLength([x] + s)
  {
    forall i, j | 0 <= i < j < |[x] + s|
      ensures |([x] + s)[i].name| >= |([x] + s)[j].name|
    {
      if i > 0 {
        assert ([x] + s)[i] == s[i - 1];
      }
      assert ([x] + s)[j] == s[j - 1];
    }
  }

  /** Inserting keeps the relative order of equally long entries and puts `e` last among them. */
  lemma {:induction false} InsertByLengthStable(e: Entry, s: seq<Entry>, n: nat)
    requires SortedByLength(s)
    ensures OfLength(InsertByLength(e, s), n) == OfLength(s, n) + (if |e.name| == n then [e] else [])
    decreases |s|
  {
    var tail := if |e.name| == n then [e] else [];
    if s == [] {
      assert InsertByLength(e, s) == [e];
      assert OfLength([e], n) == tail + OfLength([e][1..], n);
    } else if |s[0].name| >= |e.name| {
      InsertByLengthStable(e, s[1..], n);
      InsertKeepsHead(e, s, n);
    } else {
      InsertAtFront(e, s, n);
    }
  }

  lemma InsertKeepsHead(e: Entry, s: seq<Entry>, n: nat)
    requires SortedByLength(s) && s != [] && |s[0].name| >= |e.name|
    requires OfLength(InsertByLength(e, s[1..]), n) == OfLength(s[1..], n) + (if |e.name| == n then [e] else [])
    ensures OfLength(InsertByLength(e, s), n) == OfLength(s, n) + (if |e.name| == n then [e] else [])
  {
    var rest := InsertByLength(e, s[1..]);
    var head := if |s[0].name| == n then [s[0]] else [];
    var tail := if |e.name| == n then [e] else [];
    assert InsertByLength(e, s) == [s[0]] + rest;
    assert ([s[0]] + rest)[1..] == rest;
    assert ([s[0]] + rest)[0] == s[0];
    assert OfLength([s[0]] + rest, n) == head + OfLength(rest, n);
    assert OfLength(s, n) == head + OfLength(s[1..], n);
    AppendAssoc(head, OfLength(s[1..], n), tail);
  }

  lemma AppendAssoc(a: seq<Entry>, b: seq<Entry>, c: seq<Entry>)
    ensures a + (b + c) == (a + b) + c
  {
  }

  lemma InsertAtFront(e: Entry, s: seq<Entry>, n: nat)
    requires SortedByLength(s) && s != [] && |s[0].name| < |e.name|
    ensures OfLength(InsertByLength(e, s), n) == OfLength(s, n) + (if |e.name| == n then [e] else [])
  {
    assert InsertByLength(e, s) == [e] + s;
    assert ([e] + s)[1..] == s;
    if |e.name| == n {
      OfLengthNone(s, n);
    }
  }

  /** `Object.keys(LETTER_MULTI).sort((a, b) => b.length - a.length)`, on whole entries. */
  function SortByLength(xs: seq<Entry>): (r: seq<Entry>)
    ensures SortedByLength(r)
    ensures multiset(r) == multiset(xs)
    decreases |xs|
  {
    if xs == [] then []
    else
      assert xs == xs[..|xs| - 1] + [xs[|xs| - 1]];
      InsertByLengthSorted(xs[|xs| - 1], SortByLength(xs[..|xs| - 1]));
      InsertByLength(xs[|xs| - 1], SortByLength(xs[..|xs| - 1]))
  }

  /** The sort is stable: equally long names keep their declaration order. */
  lemma {:induction false} SortByLengthStable(xs: seq<Entry>, n: nat)
    ensures OfLength(SortByLength(xs), n) == OfLength(xs, n)
    decreases |xs|
  {
    if xs != [] {
      var init, x := xs[..|xs| - 1], xs[|xs| - 1];
      var sorted := SortByLength(init);
      calc {
        OfLength(SortByLength(xs), n);
        OfLength(InsertByLength(x, sorted), n);
        { InsertByLengthStable(x, sorted, n); }
        OfLength(sorted, n) + (if |x.name| == n then [x] else []);
        { SortByLengthStable(init, n); OfLengthSingle(x, n); }
        OfLength(init, n) + OfLength([x], n);
        { OfLengthAppend(init, [x], n); assert init + [x] == xs; }
        OfLength(xs, n);
      }
    }
  }

  lemma OfLengthSingle(x: Entry, n: nat)
    ensures OfLength([x], n) == if |x.name| == n then [x] else []
  {
    assert [x][1..] == [];
  }

  // ─── matchLetterName ───────────────────────────────────────────────────────

  /** The four lookups `matchLetterName` tries in turn. */
  datatype Pass = Whole | Exact | Within | LongWithin

  /** Whether the (normalised) utterance `t` hits the name `name` in a pass. */
  predicate Hits(pass: Pass, t: string, name: string) {
    match pass
    case Whole => t == name || StartsWith(t, name + " ") || EndsWith(t, " " + name)
    case Exact => t == name
    case Within => Contains(t, name)
    case LongWithin => |name| >= 3 && Contains(t, name)
  }

  /** The first entry of `keys` whose name `t` hits in the pass. */
  function FirstHit(keys: seq<Entry>, t: string, pass: Pass): (r: Option<nat>)
    ensures r.Some? ==> r.value < |keys| && Hits(pass, t, keys[r.value].name)
    ensures r.Some? ==> forall k :: 0 <= k < r.value ==> !Hits(pass, t, keys[k].name)
    ensures r.None? ==> forall k :: 0 <= k < |keys| ==> !Hits(pass, t, keys[k].name)
    decreases |keys|
  {
    if keys == [] then None
    else if Hits(pass, t, keys[0].name) then Some(0)
    else
      match FirstHit(keys[1..], t, pass)
      case None => None
      case Some(i) => Some(i + 1)
  }

  /** `/[a-záéíóúüñ]/` on one character. */
  predicate IsLetterChar(c: char) {
    'a' <= c <= 'z' || c in "áéíóúüñ"
  }

  /** The utterance as matched: lower-cased, then trimmed. */
  function Heard(text: string): string {
    Trim(Lower(text))
  }

  /** Every kind of hit puts the name somewhere inside the utterance. */
  lemma HitContains(pass: Pass, t: string, name: string)
    requires Hits(pass, t, name)
    ensures Contains(t, name)
  {
    match pass
    case Whole =>
      if t == name {
        ContainsAt(t, name, 0);
      } else if StartsWith(t, name + " ") {
        PrefixOccurs(t, name, " ");
        ContainsAt(t, name, 0);
      } else {
        SuffixOccurs(t, " ", name);
        ContainsAt(t, name, |t| - |name|);
      }
    case Exact =>
      assert t[0..|name|] == name;
      ContainsAt(t, name, 0);
    case Within =>
    case LongWithin =>
  }

  /**
   * `matchLetterName(text)` on the tables `multiKeys` (the sorted multi-word
   * names) and `single`; `None` is the source's `null`.
   */
  function MatchName(multiKeys: seq<Entry>, single: seq<Entry>, text: string): (r: Option<LetterMatch>)
    ensures r.Some? ==> Contains(Heard(text), r.value.raw)
    ensures r.Some? && r.value.ambiguous ==> IsBV(r.value.raw)
  {
    var t := Heard(text);
    match FirstHit(multiKeys, t, Whole)
    case Some(i) =>
      HitContains(Whole, t, multiKeys[i].name);
      Some(LetterMatch(multiKeys[i].letter, multiKeys[i].name, false))
    case None =>
      match FirstHit(single, t, Exact)
      case Some(i) =>
        HitContains(Exact, t, t);
        Some(LetterMatch(single[i].letter, t, IsBV(t)))
      case None =>
        match FirstHit(multiKeys, t, Within)
        case Some(i) => Some(LetterMatch(multiKeys[i].letter, multiKeys[i].name, false))
        case None =>
          match FirstHit(single, t, LongWithin)
          case Some(i) => Some(LetterMatch(single[i].letter, single[i].name, IsBV(single[i].name)))
          case None =>
            if |t| == 1 && IsLetterChar(t[0]) then
              HitContains(Exact, t, t);
              Some(LetterMatch(t, t, false))
            else None
  }

  /** One `for (const name of keys)` loop: returns at the first name the pass hits. */
  method Scan(keys: seq<Entry>, t: string, pass: Pass) returns (r: Option<nat>)
    ensures r == FirstHit(keys, t, pass)
  {
    var i := 0;
    while i < |keys|
      invariant i <= |keys|
      invariant forall k :: 0 <= k < i ==> !Hits(pass, t, keys[k].name)
    {
      if Hits(pass, t, keys[i].name) {
        return Some(i);
      }
      i := i + 1;
    }
    return None;
  }

  /** The four passes in order, each returning at its first hit. */
  method MatchLetterName(multiKeys: seq<Entry>, single: seq<Entry>, text: string) returns (r: Option<LetterMatch>)
    ensures r == MatchName(multiKeys, single, text)
  {
    var t := Lower(text);
    t := Trim(t);
    // Multi-word exact
    var hit := Scan(multiKeys, t, Whole);
    if hit.Some? {
      var e := multiKeys[hit.value];
      return Some(LetterMatch(e.letter, e.name, false));
    }
    // Single-word exact: a property lookup, not a loop
    hit := FirstHit(single, t, Exact);
    if hit.Some? {
      return Some(LetterMatch(single[hit.value].letter, t, IsBV(t)));
    }
    // Contains match for multi-word
    hit := Scan(multiKeys, t, Within);
    if hit.Some? {
      var e := multiKeys[hit.value];
      return Some(LetterMatch(e.letter, e.name, false));
    }
    // Contains match for single-word names of three or more characters
    hit := Scan(single, t, LongWithin);
    if hit.Some? {
      var e := single[hit.value];
      return Some(LetterMatch(e.letter, e.name, IsBV(e.name)));
    }
    // Single char fallback
    if |t| == 1 && IsLetterChar(t[0]) {
      return Some(LetterMatch(t, t, false));
    }
    return None;
  }

  // ─── What the passes promise ───────────────────────────────────────────────

  /**
   * Longest name first: when a multi-word name matches as the whole utterance,
   * its first word or its last words, no longer multi-word name does.
   */
  lemma MatchPrefersLongest(multiKeys: seq<Entry>, single: seq<Entry>, text: string, k: nat)
    requires SortedByLength(multiKeys)
    requires FirstHit(multiKeys, Heard(text), Whole).Some?
    requires k < |multiKeys| && |multiKeys[k].name| > |MatchName(multiKeys, single, text).value.raw|
    ensures !Hits(Whole, Heard(text), multiKeys[k].name)
  {
  }

  /** A whole-utterance multi-word match takes precedence over everything else. */
  lemma MatchWholeFirst(multiKeys: seq<Entry>, single: seq<Entry>, text: string, k: nat)
    requires k < |multiKeys| && Hits(Whole, Heard(text), multiKeys[k].name)
    ensures var r := MatchName(multiKeys, single, text);
      r.Some? && !r.value.ambiguous
      && exists j ::
        && 0 <= j <= k && Hits(Whole, Heard(text), multiKeys[j].name)
        && (forall i :: 0 <= i < j ==> !Hits(Whole, Heard(text), multiKeys[i].name))
        && r.value == LetterMatch(multiKeys[j].letter, multiKeys[j].name, false)
  {
    var j := FirstHit(multiKeys, Heard(text), Whole).value;
    assert j <= k;
  }

  /**
   * An utterance that is exactly a single-word name, and that no multi-word
   * name matches whole, gives that name's letter; it is ambiguous exactly for
   * "be", "ve" and "uve".
   */
  lemma MatchExactSingle(multiKeys: seq<Entry>, single: seq<Entry>, text: string, k: nat)
    requires FirstHit(multiKeys, Heard(text), Whole).None?
    requires k < |single| && single[k].name == Heard(text)
    ensures var r := MatchName(multiKeys, single, text);
      r.Some? && r.value.raw == Heard(text) && (r.value.ambiguous <==> IsBV(Heard(text)))
      && exists j :: 0 <= j <= k && single[j].name == Heard(text) && r.value.letter == single[j].letter
  {
    var j := FirstHit(single, Heard(text), Exact).value;
    assert j <= k;
  }

  /**
   * With no whole-utterance multi-word match and no exact single-word match, a
   * multi-word name contained anywhere in the utterance gives its letter,
   * ahead of the single-word names and the lone-letter fallback.
   */
  lemma MatchWithinMulti(multiKeys: seq<Entry>, single: seq<Entry>, text: string, k: nat)
    requires FirstHit(multiKeys, Heard(text), Whole).None? && FirstHit(single, Heard(text), Exact).None?
    requires k < |multiKeys| && Contains(Heard(text), multiKeys[k].name)
    ensures var r := MatchName(multiKeys, single, text);
      exists j ::
        && 0 <= j <= k && Contains(Heard(text), multiKeys[j].name)
        && (forall i :: 0 <= i < j ==> !Contains(Heard(text), multiKeys[i].name))
        && r == Some(LetterMatch(multiKeys[j].letter, multiKeys[j].name, false))
  {
    assert Hits(Within, Heard(text), multiKeys[k].name);
    var j := FirstHit(multiKeys, Heard(text), Within).value;
    assert j <= k;
  }

  /**
   * With no earlier pass hitting, a single-word name of three or more letters
   * contained in the utterance gives its letter, ahead of the lone-letter
   * fallback; it is ambiguous exactly for "ve" and "uve" (the names of b/v).
   */
  lemma MatchLongSingle(multiKeys: seq<Entry>, single: seq<Entry>, text: string, k: nat)
    requires FirstHit(multiKeys, Heard(text), Whole).None? && FirstHit(single, Heard(text), Exact).None?
    requires FirstHit(multiKeys, Heard(text), Within).None?
    requires k < |single| && |single[k].name| >= 3 && Contains(Heard(text), single[k].name)
    ensures var r := MatchName(multiKeys, single, text);
      exists j ::
        && 0 <= j <= k && |single[j].name| >= 3 && Contains(Heard(text), single[j].name)
        && (forall i :: 0 <= i < j ==> !(|single[i].name| >= 3 && Contains(Heard(text), single[i].name)))
        && r == Some(LetterMatch(single[j].letter, single[j].name, IsBV(single[j].name)))
  {
    assert Hits(LongWithin, Heard(text), single[k].name);
    var j := FirstHit(single, Heard(text), LongWithin).value;
    assert j <= k;
  }

  /**
   * The lone-letter fallback: a one-character utterance that no name matches
   * is its own letter, and an utterance nothing matches gives `None`.
   */
  lemma MatchFallback(multiKeys: seq<Entry>, single: seq<Entry>, text: string)
    requires FirstHit(multiKeys, Heard(text), Whole).None? && FirstHit(single, Heard(text), Exact).None?
    requires FirstHit(multiKeys, Heard(text), Within).None? && FirstHit(single, Heard(text), LongWithin).None?
    ensures var t := Heard(text);
      MatchName(multiKeys, single, text) ==
        if |t| == 1 && IsLetterChar(t[0]) then Some(LetterMatch(t, t, false)) else None
  {
  }

  /** A pass finds nothing exactly when no entry's name is hit. */
  lemma FirstHitNoneIff(keys: seq<Entry>, t: string, pass: Pass)
    ensures FirstHit(keys, t, pass).None? <==> forall k :: 0 <= k < |keys| ==> !Hits(pass, t, keys[k].name)
  {
    var r := FirstHit(keys, t, pass);
    if r.Some? {
      assert Hits(pass, t, keys[r.value].name);
    }
  }

  /** `null` exactly when no pass hits and the utterance is not a lone letter. */
  lemma MatchNoneIff(multiKeys: seq<Entry>, single: seq<Entry>, text: string)
    ensures var t := Heard(text);
      MatchName(multiKeys, single, text).None? <==>
        (forall k :: 0 <= k < |multiKeys| ==> !Hits(Whole, t, multiKeys[k].name))
        && (forall k :: 0 <= k < |single| ==> !Hits(Exact, t, single[k].name))
        && (forall k :: 0 <= k < |multiKeys| ==> !Hits(Within, t, multiKeys[k].name))
        && (forall k :: 0 <= k < |single| ==> !Hits(LongWithin, t, single[k].name))
        && !(|t| == 1 && IsLetterChar(t[0]))
  {
    var t := Heard(text);
    FirstHitNoneIff(multiKeys, t, Whole);
    FirstHitNoneIff(single, t, Exact);
    FirstHitNoneIff(multiKeys, t, Within);
    FirstHitNoneIff(single, t, LongWithin);
    assert MatchName(multiKeys, single, text).None? <==>
      FirstHit(multiKeys, t, Whole).None? && FirstHit(single, t, Exact).None?
      && FirstHit(multiKeys, t, Within).None? && FirstHit(single, t, LongWithin).None?
      && !(|t| == 1 && IsLetterChar(t[0]));
  }

  /** The letter of any match comes from a table entry whose name was matched, or is the lone letter itself. */
  lemma MatchLetterFromTable(multiKeys: seq<Entry>, single: seq<Entry>, text: string)
    requires MatchName(multiKeys, single, text).Some?
    ensures var m := MatchName(multiKeys, single, text).value;
      (exists k :: 0 <= k < |multiKeys| && multiKeys[k] == Entry(m.raw, m.letter) && !m.ambiguous)
      || (exists k :: 0 <= k < |single| && single[k].letter == m.letter)
      || (m.letter == m.raw == Heard(text) && |m.raw| == 1)
  {
    var t := Heard(text);
    var m := MatchName(multiKeys, single, text).value;
    var whole, exact := FirstHit(multiKeys, t, Whole), FirstHit(single, t, Exact);
    var within, long := FirstHit(multiKeys, t, Within), FirstHit(single, t, LongWithin);
    if whole.Some? {
      assert multiKeys[whole.value] == Entry(m.raw, m.letter);
    } else if exact.Some? {
      assert single[exact.value].letter == m.letter;
    } else if within.Some? {
      assert multiKeys[within.value] == Entry(m.raw, m.letter);
    } else if long.Some? {
      assert single[long.value].letter == m.letter;
    }
  }

  /** Every "be", "ve" or "uve" entry of the table spells "b" or "v". */
  predicate BVSpellsBOrV(single: seq<Entry>) {
    forall k :: 0 <= k < |single| && IsBV(single[k].name) ==> single[k].letter in {"b", "v"}
  }

  /** When every "b"/"v" name in the single-word table spells "b" or "v", an ambiguous match is one of those two letters. */
  lemma MatchAmbiguousLetter(multiKeys: seq<Entry>, single: seq<Entry>, text: string)
    requires BVSpellsBOrV(single)
    requires MatchName(multiKeys, single, text).Some? && MatchName(multiKeys, single, text).value.ambiguous
    ensures MatchName(multiKeys, single, text).value.letter in {"b", "v"}
  {
    var t := Heard(text);
    var m := MatchName(multiKeys, single, text).value;
    if FirstHit(multiKeys, t, Whole).None? {
      var exact := FirstHit(single, t, Exact);
      if exact.Some? {
        var e := single[exact.value];
        assert e.name == t && m.letter == e.letter;
        assert IsBV(e.name) ==> e.letter in {"b", "v"};
      } else if FirstHit(multiKeys, t, Within).None? {
        var long := FirstHit(single, t, LongWithin);
        if long.Some? {
          var e := single[long.value];
          assert m.letter == e.letter && m.ambiguous == IsBV(e.name);
          assert IsBV(e.name) ==> e.letter in {"b", "v"};
        }
      }
    }
  }
}

/** The name tables of src/App.jsx. */
module LetterTables {
  import opened LetterNames

  /** `LETTER_MULTI`, in its declaration order. */
  const LetterMulti: seq<Entry> := [
    Entry("a con acento", "á"), Entry("a con tilde", "á"), Entry("a acento", "á"),
    Entry("e con acento", "é"), Entry("e con tilde", "é"), Entry("e acento", "é"),
    Entry("i con acento", "í"), Entry("i con tilde", "í"), Entry("i acento", "í"),
    Entry("o con acento", "ó"), Entry("o con tilde", "ó"), Entry("o acento", "ó"),
    Entry("u con acento", "ú"), Entry("u con tilde", "ú"), Entry("u acento", "ú"),
    Entry("u con diéresis", "ü"), Entry("u con crema", "ü"), Entry("u diéresis", "ü"),
    Entry("be grande", "b"), Entry("be larga", "b"), Entry("b grande", "b"),
    Entry("ve corta", "v"), Entry("ve chica", "v"), Entry("uve corta", "v"), Entry("v chica", "v"),
    Entry("doble erre", "rr"), Entry("doble r", "rr"), Entry("doble ere", "rr"),
    Entry("doble ele", "ll"), Entry("doble l", "ll"),
    Entry("doble ve", "w"), Entry("doble uve", "w"), Entry("doble u", "w"),
    Entry("i griega", "y")
  ]

  /** `LETTER_SINGLE`, in its declaration order. */
  const LetterSingle: seq<Entry> := [
    Entry("a", "a"), Entry("be", "b"), Entry("ce", "c"), Entry("de", "d"), Entry("e", "e"),
    Entry("efe", "f"), Entry("ge", "g"), Entry("hache", "h"), Entry("ache", "h"), Entry("i", "i"),
    Entry("jota", "j"), Entry("ka", "k"), Entry("ele", "l"), Entry("eme", "m"), Entry("ene", "n"),
    Entry("eñe", "ñ"), Entry("o", "o"), Entry("pe", "p"), Entry("cu", "q"), Entry("erre", "r"),
    Entry("ere", "r"), Entry("ese", "s"), Entry("te", "t"), Entry("u", "u"), Entry("uve", "v"),
    Entry("ve", "v"), Entry("equis", "x"), Entry("ye", "y"), Entry("zeta", "z"), Entry("seta", "z")
  ]

  /** `MULTI_KEYS`, paired with their letters. */
  function MultiKeys(): (r: seq<Entry>)
    ensures SortedByLength(r)
    ensures SameEntries(r, LetterMulti)
  {
    SortByLength(LetterMulti)
  }

  /** In the app's tables, "be", "ve" and "uve" spell "b" or "v". */
  lemma BVNamesSpellBOrV()
    ensures BVSpellsBOrV(LetterSingle)
  {
  }
}

/** The matcher on the app's tables. */
module VoiceSpelling {
  import opened Text
  import opened LetterNames
  import opened LetterTables


  /** `matchLetterName(text)` as the app calls it. */
  method MatchSpokenLetter(text: string) returns (r: Option<LetterMatch>)
    ensures r == MatchName(MultiKeys(), LetterSingle, text)
  {
    r := MatchLetterName(MultiKeys(), LetterSingle, text);
  }

  /** An ambiguous spoken letter is always "b" or "v". */
  lemma AmbiguousIsBOrV(text: string)
    requires MatchName(MultiKeys(), LetterSingle, text).Some?
    requires MatchName(MultiKeys(), LetterSingle, text).value.ambiguous
    ensures MatchName(MultiKeys(), LetterSingle, text).value.letter in {"b", "v"}
  {
    BVNamesSpellBOrV();
    MatchAmbiguousLetter(MultiKeys(), LetterSingle, text);
  }
}
