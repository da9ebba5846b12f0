/**
 * String primitives the spelling engine relies on, stated over `seq<char>`:
 * JavaScript's `trim`, `toLowerCase`, `includes`, `startsWith`, `endsWith`,
 * first-occurrence `replace`, and the "normalize to NFD, delete some combining
 * marks" idiom, written as an explicit character table for the Spanish
 * alphabet.
 */
module Text {

  // ---------------------------------------------------------------------------
  // trim
  // ---------------------------------------------------------------------------

  /** The characters `String.prototype.trim` removes (WhiteSpace and LineTerminator). */
  predicate IsSpace(c: char) {
    ('\t' <= c <= '\r') || c == ' ' || c == '\U{00A0}' || c == '\U{1680}'
    || ('\U{2000}' <= c <= '\U{200A}') || c == '\U{2028}' || c == '\U{2029}'
    || c == '\U{202F}' || c == '\U{205F}' || c == '\U{3000}' || c == '\U{FEFF}'
  }

  predicate AllSpace(s: string) {
    forall i :: 0 <= i < |s| ==> IsSpace(s[i])
  }

  lemma AllSpaceSnoc(s: string, c: char)
    requires AllSpace(s) && IsSpace(c)
    ensures AllSpace(s + [c])
  {
    assert forall i :: 0 <= i < |s| ==> (s + [c])[i] == s[i];
  }

  /** Leading whitespace removed: the longest suffix that does not start with a space. */
  function TrimStart(s: string): (r: string)
    ensures |r| <= |s| && r == s[|s| - |r|..]
    ensures AllSpace(s[..|s| - |r|])
    ensures r == [] || !IsSpace(r[0])
  {
    if |s| > 0 && IsSpace(s[0]) then
      var r := TrimStart(s[1..]);
      assert s[1..][..|s| - 1 - |r|] == s[1..|s| - |r|];
      r
    else s
  }

  /** Trailing whitespace removed: the longest prefix that does not end with a space. */
  function TrimEnd(s: string): (r: string)
    ensures |r| <= |s| && r == s[..|r|]
    ensures AllSpace(s[|r|..])
    ensures r == [] || !IsSpace(r[|r| - 1])
  {
    if |s| > 0 && IsSpace(s[|s| - 1]) then
      var init := s[..|s| - 1];
      var r := TrimEnd(init);
      assert init[..|r|] == s[..|r|];
      assert init[|r|..] + [s[|s| - 1]] == s[|r|..];
      AllSpaceSnoc(init[|r|..], s[|s| - 1]);
      r
    else s
  }

  /** Cutting a space suffix off a space-free-headed suffix leaves an infix between two space runs. */
  lemma TrimInfix(s: string, t: string, r: string)
    requires |t| <= |s| && t == s[|s| - |t|..] && AllSpace(s[..|s| - |t|])
    requires |r| <= |t| && r == t[..|r|] && AllSpace(t[|r|..])
    ensures exists k :: 0 <= k && k + |r| <= |s| && r == s[k..k + |r|] && AllSpace(s[..k]) && AllSpace(s[k + |r|..])
  {
    var k := |s| - |t|;
    assert s[k + |r|..] == t[|r|..];
    assert r == s[k..k + |r|];
  }

  /** `s.trim()`. */
  function Trim(s: string): (r: string)
    ensures |r| <= |s|
    ensures r == [] || (!IsSpace(r[0]) && !IsSpace(r[|r| - 1]))
    ensures AllSpace(s) <==> r == []
  {
    var t := TrimStart(s);
    var r := TrimEnd(t);
    assert r != [] ==> r[0] == t[0];
    assert r == [] ==> s == s[..|s| - |t|] + t[|r|..];
    assert r != [] ==> s[|s| - |t|] == r[0];
    r
  }

  /** What `trim()` keeps is the stretch of the input between a leading and a trailing run of whitespace. */
  lemma TrimIsInfix(s: string)
    ensures exists k ::
      && 0 <= k && k + |Trim(s)| <= |s|
      && Trim(s) == s[k..k + |Trim(s)|]
      && AllSpace(s[..k]) && AllSpace(s[k + |Trim(s)|..])
  {
    TrimInfix(s, TrimStart(s), TrimEnd(TrimStart(s)));
  }

  // ---------------------------------------------------------------------------
  // toLowerCase
  // ---------------------------------------------------------------------------

  /** The upper-case letters `toLowerCase` maps below U+0100: A-Z and U+00C0-U+00DE except U+00D7. */
  predicate IsUpper(c: char) {
    ('A' <= c <= 'Z') || ('\U{00C0}' <= c <= '\U{00DE}' && c != '\U{00D7}')
  }

  /** `toLowerCase` on one character (each of these lies 32 code points below its lower case). */
  function LowerChar(c: char): (r: char)
    ensures !IsUpper(r)
    ensures IsSpace(r) <==> IsSpace(c)
    ensures !IsUpper(c) ==> r == c
    ensures IsUpper(c) ==> r as int == c as int + 32
  {
    if IsUpper(c) then (c as int + 32) as char else c
  }

  /** `s.toLowerCase()`. */
  function Lower(s: string): (r: string)
    ensures |r| == |s|
    ensures forall i :: 0 <= i < |s| ==> r[i] == LowerChar(s[i])
  {
    seq(|s|, i requires 0 <= i < |s| => LowerChar(s[i]))
  }

  /** Lower-casing leaves a string without upper-case letters alone. */
  lemma LowerFixes(s: string)
    requires forall i :: 0 <= i < |s| ==> !IsUpper(s[i])
    ensures Lower(s) == s
  {
  }

  /** Trimming leaves a string alone that neither starts nor ends with a space. */
  lemma TrimFixes(s: string)
    requires s == [] || (!IsSpace(s[0]) && !IsSpace(s[|s| - 1]))
    ensures Trim(s) == s
  {
    assert TrimStart(s) == s;
  }

  lemma LowerIdempotent(s: string)
    ensures Lower(Lower(s)) == Lower(s)
  {
  }

  lemma {:induction false} TrimStartLower(s: string)
    ensures TrimStart(Lower(s)) == Lower(TrimStart(s))
    decreases |s|
  {
    if |s| > 0 && IsSpace(s[0]) {
      assert Lower(s)[1..] == Lower(s[1..]);
      TrimStartLower(s[1..]);
    }
  }

  lemma {:induction false} TrimEndLower(s: string)
    ensures TrimEnd(Lower(s)) == Lower(TrimEnd(s))
    decreases |s|
  {
    if |s| > 0 && IsSpace(s[|s| - 1]) {
      assert Lower(s)[..|s| - 1] == Lower(s[..|s| - 1]);
      TrimEndLower(s[..|s| - 1]);
    }
  }

  /** Lower-casing and trimming commute, so `toLowerCase().trim()` and `trim().toLowerCase()` agree. */
  lemma TrimLowerCommute(s: string)
    ensures Trim(Lower(s)) == Lower(Trim(s))
  {
    TrimStartLower(s);
    TrimEndLower(TrimStart(s));
  }

  // ---------------------------------------------------------------------------
  // Canonical decomposition and mark removal
  // ---------------------------------------------------------------------------

  /** Combining Diacritical Marks, U+0300-U+036F. */
  predicate IsCombiningMark(c: char) {
    '\U{0300}' <= c <= '\U{036F}'
  }

  const Grave: char := '\U{0300}'
  const Acute: char := '\U{0301}'
  const Tilde: char := '\U{0303}'
  const Diaeresis: char := '\U{0308}'

  /** The base letters of the decompositions below. */
  predicate IsBaseVowelOrN(c: char) {
    c in "aeiounAEIOUN"
  }

  /** Canonical decomposition (NFD) of the lower-case precomposed letters of the modelled alphabet. */
  function NfdLower(c: char): (r: seq<char>)
    ensures |r| == 1 || |r| == 2
    ensures |r| == 1 ==> r[0] == c
    ensures |r| == 2 ==> r[0] in "aeioun" && IsCombiningMark(r[1]) && !IsCombiningMark(c) && !IsUpper(c)
  {
    match c
    case 'á' => ['a', Acute]     case 'é' => ['e', Acute]     case 'í' => ['i', Acute]
    case 'ó' => ['o', Acute]     case 'ú' => ['u', Acute]
    case 'à' => ['a', Grave]     case 'è' => ['e', Grave]     case 'ì' => ['i', Grave]
    case 'ò' => ['o', Grave]     case 'ù' => ['u', Grave]
    case 'ä' => ['a', Diaeresis] case 'ë' => ['e', Diaeresis] case 'ï' => ['i', Diaeresis]
    case 'ö' => ['o', Diaeresis] case 'ü' => ['u', Diaeresis]
    case 'ñ' => ['n', Tilde]
    case _ => [c]
  }

  /**
   * Canonical decomposition (NFD) of one character: the table above, and for
   * each of its letters the upper-case form (32 code points below it), which
   * decomposes onto the upper-case base letter and the same mark.
   */
  function Nfd(c: char): (r: seq<char>)
    ensures |r| == 1 || |r| == 2
    ensures |r| == 1 ==> r[0] == c
    ensures |r| == 2 ==> IsBaseVowelOrN(r[0]) && IsCombiningMark(r[1]) && !IsCombiningMark(c)
  {
    if IsUpper(c) then
      var d := NfdLower(LowerChar(c));
      if |d| == 2 then [(d[0] as int - 32) as char, d[1]] else [c]
    else NfdLower(c)
  }

  /** A character that decomposes further: an accented vowel, `ü` or `ñ` of either case. */
  predicate IsComposed(c: char) {
    |Nfd(c)| == 2
  }

  lemma BaseIsNotComposed(c: char)
    requires IsBaseVowelOrN(c)
    ensures !IsComposed(c) && !IsCombiningMark(c)
  {
    assert c in "aeioun" || c in "AEIOUN";
    if IsUpper(c) {
      NfdLowerBase(LowerChar(c));
    } else {
      NfdLowerBase(c);
    }
  }

  lemma NfdLowerBase(c: char)
    requires c == 'a' || c == 'e' || c == 'i' || c == 'o' || c == 'u' || c == 'n'
    ensures NfdLower(c) == [c]
  {
  }

  /** Which combining marks a `replace(/[...]/g, "")` after NFD deletes. */
  datatype MarkSet =
    | AllMarks            // U+0300-U+036F
    | AcuteAndDiaeresis   // U+0301 and U+0308
    | AcuteOnly           // U+0301

  predicate Drops(ms: MarkSet, m: char) {
    match ms
    case AllMarks => IsCombiningMark(m)
    case AcuteAndDiaeresis => m == Acute || m == Diaeresis
    case AcuteOnly => m == Acute
  }

  /** A character that mark removal keeps whole: not a dropped mark, and not decomposing onto one. */
  predicate Bare(c: char, ms: MarkSet) {
    !(IsCombiningMark(c) && Drops(ms, c)) && !(IsComposed(c) && Drops(ms, Nfd(c)[1]))
  }

  /** What one character becomes after NFD, deleting the marks in `ms`, and recomposing. */
  function StripChar(c: char, ms: MarkSet): (r: seq<char>)
    ensures |r| <= 1
    ensures r == [] <==> (IsCombiningMark(c) && Drops(ms, c))
    ensures Bare(c, ms) ==> r == [c]
    ensures !IsCombiningMark(c) && IsComposed(c) && Drops(ms, Nfd(c)[1]) ==> r == [Nfd(c)[0]]
    ensures r != [] ==> Bare(r[0], ms)
  {
    if IsCombiningMark(c) then (if Drops(ms, c) then [] else [c])
    else if IsComposed(c) && Drops(ms, Nfd(c)[1]) then
      BaseIsNotComposed(Nfd(c)[0]);
      [Nfd(c)[0]]
    else [c]
  }

  /** `s.normalize("NFD").replace(marks, "").normalize("NFC")` over the modelled alphabet. */
  function StripMarks(s: string, ms: MarkSet): (r: string)
    ensures |r| <= |s|
  {
    if s == [] then [] else StripChar(s[0], ms) + StripMarks(s[1..], ms)
  }

  /** Everything left after mark removal is bare. */
  lemma {:induction false} StripMarksBare(s: string, ms: MarkSet)
    ensures forall i :: 0 <= i < |StripMarks(s, ms)| ==> Bare(StripMarks(s, ms)[i], ms)
    decreases |s|
  {
    if s != [] {
      StripMarksBare(s[1..], ms);
    }
  }

  /** A character kept whole by mark removal stays in the output: e.g. `ñ` survives U+0301/U+0308 removal. */
  lemma {:induction false} StripMarksKeeps(s: string, ms: MarkSet, c: char)
    requires c in s && Bare(c, ms)
    ensures c in StripMarks(s, ms)
    decreases |s|
  {
    if s[0] != c {
      StripMarksKeeps(s[1..], ms, c);
    }
  }

  /** Mark removal leaves alone a string in which nothing would be removed. */
  lemma {:induction false} StripMarksFixes(s: string, ms: MarkSet)
    requires forall i :: 0 <= i < |s| ==> Bare(s[i], ms)
    ensures StripMarks(s, ms) == s
    decreases |s|
  {
    if s != [] {
      StripMarksFixes(s[1..], ms);
    }
  }
  /** An unaccented lower-case ASCII letter is kept whole by every mark removal. */
  lemma AsciiBare(c: char, ms: MarkSet)
    requires 'a' <= c <= 'z'
    ensures Bare(c, ms)
  {
    assert Nfd(c) == [c];
  }

  /** Mark removal leaves a word of unaccented lower-case ASCII letters alone. */
  lemma AsciiFixes(s: string, ms: MarkSet)
    requires forall i :: 0 <= i < |s| ==> 'a' <= s[i] <= 'z'
    ensures StripMarks(s, ms) == s
  {
    forall i | 0 <= i < |s|
      ensures Bare(s[i], ms)
    {
      AsciiBare(s[i], ms);
    }
    StripMarksFixes(s, ms);
  }


  lemma {:induction false} StripMarksAppend(s: string, t: string, ms: MarkSet)
    ensures StripMarks(s + t, ms) == StripMarks(s, ms) + StripMarks(t, ms)
    decreases |s|
  {
    if s == [] {
      assert s + t == t;
    } else {
      assert (s + t)[1..] == s[1..] + t;
      StripMarksAppend(s[1..], t, ms);
    }
  }

  /** Stripping twice with the same mark set strips nothing more. */
  lemma StripMarksIdempotent(s: string, ms: MarkSet)
    ensures StripMarks(StripMarks(s, ms), ms) == StripMarks(s, ms)
  {
    StripMarksBare(s, ms);
    StripMarksFixes(StripMarks(s, ms), ms);
  }

  /** `stripAccents` of the word list (src/App.jsx): NFD, delete U+0300-U+036F, lower-case. */
  function StripAccents(s: string): (r: string)
    ensures |r| <= |s|
    ensures forall i :: 0 <= i < |r| ==> !IsUpper(r[i])
  {
    Lower(StripMarks(s, AllMarks))
  }

  /** A lower-case letter that decomposes onto a base and a mark strips to that base: á to a, ü to u, ñ to n. */
  lemma StripAccentsToBase(c: char, b: char, m: char)
    requires NfdLower(c) == [b, m]
    ensures StripAccents([c]) == [b]
  {
    assert !IsUpper(c) && Nfd(c) == [b, m];
    assert StripMarks([c], AllMarks) == StripChar(c, AllMarks) + StripMarks([], AllMarks);
  }

  /** Every precomposed letter of either case strips to its lower-case base letter. */
  lemma StripAccentsComposed(c: char)
    requires IsComposed(c)
    ensures StripAccents([c]) == [LowerChar(Nfd(c)[0])]
  {
    assert StripMarks([c], AllMarks) == StripChar(c, AllMarks) + StripMarks([], AllMarks);
  }

  lemma StripAcuteO()
    ensures StripMarks("ón", AllMarks) == "on"
  {
    assert StripChar('ó', AllMarks) == ['o'];
    StripMarksFixes("n", AllMarks);
    assert "ón"[1..] == "n";
  }

  lemma SplitAmbon()
    ensures "ambón" == "amb" + "ón"
  {
  }

  lemma StripMarksAmb()
    ensures StripMarks("amb", AllMarks) == "amb"
  {
    AsciiFixes("amb", AllMarks);
  }

  lemma StripMarksAmbon()
    ensures StripMarks("ambón", AllMarks) == "ambon"
  {
    SplitAmbon();
    StripAcuteO();
    StripMarksAmb();
    StripMarksAppend("amb", "ón", AllMarks);
  }

  /** The accent of "ambón" is folded away. */
  lemma StripAccentsAmbon()
    ensures StripAccents("ambón") == "ambon"
  {
    StripMarksAmbon();
    AmbonLetters();
    LowerAfterMarks("ambón", "ambon");
  }

  lemma AmbonLetters()
    ensures forall i :: 0 <= i < |"ambon"| ==> 'a' <= "ambon"[i] <= 'z'
  {
  }

  /** When the marks come off to leave plain lower-case letters, folding case changes nothing more. */
  lemma LowerAfterMarks(s: string, t: string)
    requires StripMarks(s, AllMarks) == t
    requires forall i :: 0 <= i < |t| ==> 'a' <= t[i] <= 'z'
    ensures StripAccents(s) == t
  {
    LowerFixes(t);
  }

  lemma TrimAmbon()
    ensures Trim("ambon") == "ambon"
  {
    TrimFixes("ambon");
  }

  /** A word of plain lower-case letters is its own accent-stripped form. */
  lemma AsciiStripAccents(s: string)
    requires forall i :: 0 <= i < |s| ==> 'a' <= s[i] <= 'z'
    ensures StripAccents(s) == s
  {
    AsciiFixes(s, AllMarks);
    LowerFixes(s);
  }

  lemma StripAccentsPlainAmbon()
    ensures StripAccents(Trim("ambon")) == "ambon"
  {
    TrimAmbon();
    AsciiStripAccents("ambon");
  }

  /** "ambon" spells "ambón" up to its accent. */
  lemma AmbonSameLetters()
    ensures StripAccents(Trim("ambon")) == StripAccents("ambón")
  {
    StripAccentsPlainAmbon();
    StripAccentsAmbon();
  }

  lemma LowerKeepsBare(c: char)
    requires Bare(c, AllMarks)
    ensures Bare(LowerChar(c), AllMarks)
  {
  }

  /** After stripAccents no accented letter, `ü` or `ñ` and no combining mark is left. */
  lemma StripAccentsPlain(s: string)
    ensures forall i :: 0 <= i < |StripAccents(s)| ==>
      !IsComposed(StripAccents(s)[i]) && !IsCombiningMark(StripAccents(s)[i])
  {
    var t := StripMarks(s, AllMarks);
    StripMarksBare(s, AllMarks);
    forall i | 0 <= i < |t|
      ensures Bare(LowerChar(t[i]), AllMarks)
    {
      LowerKeepsBare(t[i]);
    }
  }

  lemma StripAccentsIdempotent(s: string)
    ensures StripAccents(StripAccents(s)) == StripAccents(s)
  {
    var r := StripAccents(s);
    StripAccentsPlain(s);
    StripMarksFixes(r, AllMarks);
    LowerIdempotent(StripMarks(s, AllMarks));
  }

  /** Mark removal then lower-casing of one character ignores its case. */
  lemma StripCharIgnoresCase(c: char)
    ensures Lower(StripChar(LowerChar(c), AllMarks)) == Lower(StripChar(c, AllMarks))
  {
    if IsUpper(c) {
      var l := LowerChar(c);
      assert !IsCombiningMark(c) && !IsCombiningMark(l);
      if IsComposed(c) {
        assert Nfd(l) == NfdLower(l);
        assert LowerChar(Nfd(c)[0]) == Nfd(l)[0];
      } else {
        assert !IsComposed(l);
      }
    }
  }

  lemma LowerAppend(x: string, y: string)
    ensures Lower(x + y) == Lower(x) + Lower(y)
  {
  }

  lemma {:induction false} StripMarksLowerCommute(s: string)
    ensures Lower(StripMarks(Lower(s), AllMarks)) == Lower(StripMarks(s, AllMarks))
    decreases |s|
  {
    if s != [] {
      var l := Lower(s);
      assert l[0] == LowerChar(s[0]) && l[1..] == Lower(s[1..]);
      calc {
        Lower(StripMarks(l, AllMarks));
        Lower(StripChar(l[0], AllMarks) + StripMarks(l[1..], AllMarks));
        { LowerAppend(StripChar(l[0], AllMarks), StripMarks(l[1..], AllMarks)); }
        Lower(StripChar(LowerChar(s[0]), AllMarks)) + Lower(StripMarks(Lower(s[1..]), AllMarks));
        { StripCharIgnoresCase(s[0]); StripMarksLowerCommute(s[1..]); }
        Lower(StripChar(s[0], AllMarks)) + Lower(StripMarks(s[1..], AllMarks));
        { LowerAppend(StripChar(s[0], AllMarks), StripMarks(s[1..], AllMarks)); }
        Lower(StripMarks(s, AllMarks));
      }
    }
  }

  /** stripAccents already ignores case: lower-casing its argument first changes nothing. */
  lemma StripAccentsIgnoresCase(s: string)
    ensures StripAccents(Lower(s)) == StripAccents(s)
  {
    StripMarksLowerCommute(s);
  }

  // ---------------------------------------------------------------------------
  // includes / startsWith / endsWith / replace
  // ---------------------------------------------------------------------------

  /** `s.startsWith(p)`. */
  predicate StartsWith(s: string, p: string) {
    p <= s
  }

  /** `s.endsWith(p)`. */
  predicate EndsWith(s: string, p: string) {
    |p| <= |s| && s[|s| - |p|..] == p
  }

  /** A string starting with `p + q` has `p` at index 0. */
  lemma PrefixOccurs(s: string, p: string, q: string)
    requires StartsWith(s, p + q)
    ensures OccursAt(s, p, 0)
  {
    assert s[0..|p|] == (p + q)[..|p|] == p;
  }

  /** A string ending with `q + p` has `p` at its last `|p|` characters. */
  lemma SuffixOccurs(s: string, q: string, p: string)
    requires EndsWith(s, q + p)
    ensures OccursAt(s, p, |s| - |p|)
  {
    var k := |s| - |q + p|;
    assert s[k..] == q + p;
    assert s[|s| - |p|..] == s[k..][|q|..] == (q + p)[|q|..] == p;
  }

  /** `p` occurs in `s` at index `k`. */
  predicate OccursAt(s: string, p: string, k: nat) {
    k + |p| <= |s| && s[k..k + |p|] == p
  }

  lemma OccursShift(s: string, p: string)
    requires |s| > 0
    ensures OccursAt(s, p, 0) <==> p <= s
    ensures forall k: nat :: 1 <= k ==> (OccursAt(s, p, k) <==> OccursAt(s[1..], p, k - 1))
  {
    forall k: nat | 1 <= k ensures OccursAt(s, p, k) <==> OccursAt(s[1..], p, k - 1) {
      if k + |p| <= |s| {
        var a, b := s[k..k + |p|], s[1..][k - 1..k - 1 + |p|];
        assert |a| == |b|;
        assert forall j :: 0 <= j < |a| ==> a[j] == s[k + j] == b[j];
      }
    }
  }

  /** `s.indexOf(p)`: the first index at which `p` occurs, if any. */
  function IndexOf(s: string, p: string): (r: Option<nat>)
    ensures r.Some? ==> OccursAt(s, p, r.value)
    ensures r.Some? ==> forall k: nat :: k < r.value ==> !OccursAt(s, p, k)
    ensures r.None? ==> forall k: nat :: !OccursAt(s, p, k)
    decreases |s|
  {
    if p <= s then Some(0)
    else if s == [] then None
    else
      OccursShift(s, p);
      match IndexOf(s[1..], p)
      case None => None
      case Some(i) => Some(i + 1)
  }

  /** `s.includes(p)`. */
  predicate Contains(s: string, p: string) {
    IndexOf(s, p).Some?
  }

  lemma ContainsAt(s: string, p: string, k: nat)
    requires OccursAt(s, p, k)
    ensures Contains(s, p)
  {
  }

  datatype Option<T> = None | Some(value: T)

  /** A pattern whose first character does not occur in `s` does not occur in `s`. */
  lemma NotContains(s: string, p: string)
    requires p != [] && p[0] !in s
    ensures !Contains(s, p)
  {
    forall k: nat
      ensures !OccursAt(s, p, k)
    {
      if k + |p| <= |s| {
        assert s[k..k + |p|][0] == s[k];
      }
    }
  }

  /** A two-character pattern that no adjacent pair of `s` spells does not occur in `s`. */
  lemma NotContainsPair(s: string, p: string)
    requires |p| == 2
    requires forall k :: 0 <= k < |s| - 1 ==> s[k] != p[0] || s[k + 1] != p[1]
    ensures !Contains(s, p)
  {
    forall k: nat
      ensures !OccursAt(s, p, k)
    {
      if k + 2 <= |s| {
        assert s[k..k + 2][0] == s[k] && s[k..k + 2][1] == s[k + 1];
      }
    }
  }

  /** `s.replace(p, rep)` with a string (or one-character regex) pattern: the first occurrence only. */
  function ReplaceFirst(s: string, p: string, rep: string): (r: string)
    ensures !Contains(s, p) ==> r == s
    ensures Contains(s, p) ==>
      var i := IndexOf(s, p).value; r == s[..i] + rep + s[i + |p|..]
  {
    match IndexOf(s, p)
    case None => s
    case Some(i) => s[..i] + rep + s[i + |p|..]
  }
}
