/** `convertToSlug` of the create-question controller: a title is lower-cased,
    decomposed, stripped of combining marks and of every character that is not
    a word character, white space or `-`, and each run of white space becomes
    one `-`.

    Lower-casing is modelled for the ASCII letters and canonical decomposition
    as the identity, which is exact for ASCII titles; the three regular
    expression replacements are modelled exactly for every character. */
module Slug {
  import opened Text

  /** The characters a slug is made of: lower-case ASCII letters, digits, `_` and `-`. */
  predicate IsSlugChar(c: char) {
    ('a' <= c <= 'z') || ('0' <= c <= '9') || c == '_' || c == '-'
  }

  predicate IsSlug(s: seq<char>) {
    forall i :: 0 <= i < |s| ==> IsSlugChar(s[i])
  }

  /** U+0300..U+036F, the Combining Diacritical Marks block. */
  predicate IsCombiningMark(c: char) {
    0x300 <= c as int <= 0x36F
  }

  predicate IsNotCombiningMark(c: char) {
    !IsCombiningMark(c)
  }

  /** The characters the second replacement keeps. */
  predicate IsAllowed(c: char) {
    IsWordChar(c) || IsSpace(c) || c == '-'
  }

  function LowerChar(c: char): (d: char)
    ensures !IsAsciiUpper(d)
    ensures IsAsciiUpper(c) ==> d as int == c as int + 32
    ensures !IsAsciiUpper(c) ==> d == c
  {
    if IsAsciiUpper(c) then (c as int + 32) as char else c
  }

  /** `toLowerCase()`, on the ASCII letters. */
  function ToLowerCase(s: seq<char>): (r: seq<char>)
    ensures |r| == |s|
    ensures forall i :: 0 <= i < |s| ==> r[i] == LowerChar(s[i])
  {
    seq(|s|, i requires 0 <= i < |s| => LowerChar(s[i]))
  }

  /** `normalize("NFD")`: the identity on ASCII text; decomposition of
      precomposed non-ASCII characters is not modelled. */
  function NormalizeNfd(s: seq<char>): seq<char> {
    s
  }

  /** The first replacement: deletes every combining mark. */
  function StripCombiningMarks(s: seq<char>): seq<char> {
    Filter(IsNotCombiningMark, s)
  }

  /** The second replacement: deletes every character that is not a word
      character, white space or `-`. */
  function StripDisallowed(s: seq<char>): seq<char> {
    Filter(IsAllowed, s)
  }

  /** The third replacement: every maximal run of white space becomes one `-`. */
  function HyphenateSpaces(s: seq<char>): (r: seq<char>)
    ensures NoSpace(r)
  {
    Hyphenate(s, false)
  }

  /** The third replacement as a scan over `s`, where `inRun` says whether the
      character before `s` was white space, and so already produced its `-`. */
  function Hyphenate(s: seq<char>, inRun: bool): (r: seq<char>)
    ensures NoSpace(r)
    ensures forall c :: c in r ==> c == '-' || c in s
  {
    if s == [] then [] else Emit(s[0], inRun) + Hyphenate(s[1..], IsSpace(s[0]))
  }

  /** What the scan writes for `c`: the character itself, the `-` that opens
      a run of white space, or nothing inside a run. */
  function Emit(c: char, inRun: bool): string {
    if !IsSpace(c) then [c] else if inRun then "" else "-"
  }

  /** Whether a scan that started in state `inRun` is inside a run after `s`. */
  function EndsInRun(s: seq<char>, inRun: bool): bool {
    if s == [] then inRun else IsSpace(s[|s| - 1])
  }

  /** The title as the last replacement sees it. */
  function Filtered(title: seq<char>): seq<char> {
    StripDisallowed(StripCombiningMarks(NormalizeNfd(ToLowerCase(title))))
  }

  function ConvertToSlug(title: seq<char>): (slug: seq<char>)
    ensures IsSlug(slug)
  {
    var filtered := Filtered(title);
    assert forall c :: c in filtered ==> IsSlugChar(c) || IsSpace(c) by {
      forall c | c in filtered ensures IsSlugChar(c) || IsSpace(c) {
        assert c in ToLowerCase(title);
      }
    }
    HyphenateSpaces(filtered)
  }

  // ----- The whitespace-run replacement, characterised piece by piece -----

  /** Text without white space passes through unchanged. */
  lemma {:induction false} HyphenateNoSpace(s: seq<char>, inRun: bool)
    requires NoSpace(s)
    ensures Hyphenate(s, inRun) == s
  {
    if s != [] {
      HyphenateNoSpace(s[1..], false);
    }
  }

  /** A non-empty run of white space becomes exactly one `-`. */
  lemma HyphenateRun(w: seq<char>)
    requires w != [] && AllSpace(w)
    ensures HyphenateSpaces(w) == "-"
  {
    RunInsideRun(w[1..]);
  }

  lemma {:induction false} RunInsideRun(w: seq<char>)
    requires AllSpace(w)
    ensures Hyphenate(w, true) == []
  {
    if w != [] {
      RunInsideRun(w[1..]);
    }
  }

  /** The scan over a concatenation is the scan over each part, the second
      one started in the state the first one ended in. */
  lemma {:induction false} HyphenateSplit(a: seq<char>, b: seq<char>, inRun: bool)
    ensures Hyphenate(a + b, inRun) == Hyphenate(a, inRun) + Hyphenate(b, EndsInRun(a, inRun))
  {
    if a == [] {
      assert a + b == b;
    } else {
      var ab := a + b;
      assert ab[0] == a[0] && ab[1..] == a[1..] + b;
      var head := Emit(a[0], inRun);
      HyphenateSplit(a[1..], b, IsSpace(a[0]));
      assert EndsInRun(a[1..], IsSpace(a[0])) == EndsInRun(a, inRun);
      calc {
        Hyphenate(ab, inRun);
        head + Hyphenate(a[1..] + b, IsSpace(a[0]));
        head + (Hyphenate(a[1..], IsSpace(a[0])) + Hyphenate(b, EndsInRun(a, inRun)));
        (head + Hyphenate(a[1..], IsSpace(a[0]))) + Hyphenate(b, EndsInRun(a, inRun));
      }
    }
  }

  /** Replacing runs commutes with concatenation whenever the cut does not
      fall inside a run of white space. */
  lemma HyphenateConcat(a: seq<char>, b: seq<char>)
    requires a == [] || b == [] || !IsSpace(a[|a| - 1]) || !IsSpace(b[0])
    ensures HyphenateSpaces(a + b) == HyphenateSpaces(a) + HyphenateSpaces(b)
  {
    HyphenateSplit(a, b, false);
    if b != [] && EndsInRun(a, false) {
      assert !IsSpace(b[0]);
    }
  }

  predicate IsHyphen(c: char) {
    c == '-'
  }

  /** The number of `-` in `s`. */
  function Hyphens(s: seq<char>): nat {
    |Filter(IsHyphen, s)|
  }

  /** The number of maximal runs of white space that start in `s`, for a scan
      that starts inside a run exactly when `inRun`. */
  function Runs(s: seq<char>, inRun: bool): nat {
    if s == [] then 0
    else (if IsSpace(s[0]) && !inRun then 1 else 0) + Runs(s[1..], IsSpace(s[0]))
  }

  /** The replacement keeps every `-` of its input and adds exactly one per
      run of white space. */
  lemma {:induction false} HyphenateCountsHyphens(s: seq<char>, inRun: bool)
    ensures Hyphens(Hyphenate(s, inRun)) == Hyphens(s) + Runs(s, inRun)
  {
    if s != [] {
      var c := s[0];
      HyphenateCountsHyphens(s[1..], IsSpace(c));
      FilterConcat(IsHyphen, Emit(c, inRun), Hyphenate(s[1..], IsSpace(c)));
      assert s == [c] + s[1..];
      FilterConcat(IsHyphen, [c], s[1..]);
    }
  }

  // ----- Properties of the slug -----

  /** A slug holds no white space and no upper-case letter. */
  lemma SlugHasNoSpaceNorUpper(title: seq<char>)
    ensures NoSpace(ConvertToSlug(title))
    ensures forall i :: 0 <= i < |ConvertToSlug(title)| ==> !IsAsciiUpper(ConvertToSlug(title)[i])
  {
  }

  /** The word characters of the lower-cased title survive in their order,
      and no other word character appears. */
  lemma SlugKeepsWordChars(title: seq<char>)
    ensures Filter(IsWordChar, ConvertToSlug(title)) == Filter(IsWordChar, ToLowerCase(title))
  {
    var lowered := NormalizeNfd(ToLowerCase(title));
    FilterNarrower(IsWordChar, IsNotCombiningMark, lowered);
    FilterNarrower(IsWordChar, IsAllowed, StripCombiningMarks(lowered));
    HyphenateKeepsWordChars(Filtered(title), false);
  }

  lemma {:induction false} HyphenateKeepsWordChars(s: seq<char>, inRun: bool)
    ensures Filter(IsWordChar, Hyphenate(s, inRun)) == Filter(IsWordChar, s)
  {
    if s != [] {
      HyphenateKeepsWordChars(s[1..], IsSpace(s[0]));
      FilterConcat(IsWordChar, Emit(s[0], inRun), Hyphenate(s[1..], IsSpace(s[0])));
    }
  }

  /** The slug holds every `-` of the lower-cased title, and one more for
      each run of white space that survives the deletions. */
  lemma SlugCountsHyphens(title: seq<char>)
    ensures Hyphens(ConvertToSlug(title)) == Hyphens(ToLowerCase(title)) + Runs(Filtered(title), false)
  {
    var lowered := NormalizeNfd(ToLowerCase(title));
    FilterNarrower(IsHyphen, IsNotCombiningMark, lowered);
    FilterNarrower(IsHyphen, IsAllowed, StripCombiningMarks(lowered));
    HyphenateCountsHyphens(Filtered(title), false);
  }

  /** Converting a slug again changes nothing. */
  lemma SlugIdempotent(title: seq<char>)
    ensures ConvertToSlug(ConvertToSlug(title)) == ConvertToSlug(title)
  {
    SlugIsFixedPoint(ConvertToSlug(title));
  }

  /** Every string made of slug characters is its own slug. */
  lemma SlugIsFixedPoint(s: seq<char>)
    requires IsSlug(s)
    ensures ConvertToSlug(s) == s
  {
    assert ToLowerCase(s) == s;
    FilterKeepsAll(IsNotCombiningMark, s);
    FilterKeepsAll(IsAllowed, s);
    HyphenateNoSpace(s, false);
  }

  // ----- Concrete cases -----

  /** A title made only of word characters, white space and `-` loses
      nothing before the last replacement; it is only lower-cased. */
  lemma FilteredKeepsAllowed(title: seq<char>)
    requires forall i :: 0 <= i < |title| ==> IsAllowed(title[i])
    ensures Filtered(title) == ToLowerCase(title)
  {
    var lowered := ToLowerCase(title);
    assert forall i :: 0 <= i < |lowered| ==> IsAllowed(lowered[i]) by {
      forall i | 0 <= i < |lowered| ensures IsAllowed(lowered[i]) {
        assert IsAllowed(title[i]);
      }
    }
    FilterKeepsAll(IsNotCombiningMark, lowered);
    FilterKeepsAll(IsAllowed, lowered);
  }

  /** The title and slug the listing test stores together. */
  lemma NewQuestionExample()
    ensures ConvertToSlug("New Question 01") == "new-question-01"
  {
    NewQuestionFiltered();
    NewQuestionHyphenated();
  }

  lemma NewQuestionFiltered()
    ensures Filtered("New Question 01") == "new question 01"
  {
    NewQuestionLowered();
    FilteredKeepsAllowed("New Question 01");
  }

  lemma NewQuestionLowered()
    ensures ToLowerCase("New Question 01") == "new question 01"
  {
  }

  lemma NewQuestionHyphenated()
    ensures HyphenateSpaces("new question 01") == "new-question-01"
  {
    assert "new question 01" == "new" + " " + "question" + " " + "01";
    HyphenateThreeWords("new", " ", "question", " ", "01");
    assert "new" + "-" + "question" + "-" + "01" == "new-question-01";
  }

  /** Three words separated by two runs of white space. */
  lemma HyphenateThreeWords(a: seq<char>, s1: seq<char>, b: seq<char>, s2: seq<char>, c: seq<char>)
    requires a != [] && b != [] && c != [] && NoSpace(a) && NoSpace(b) && NoSpace(c)
    requires s1 != [] && s2 != [] && AllSpace(s1) && AllSpace(s2)
    ensures HyphenateSpaces(a + s1 + b + s2 + c) == a + "-" + b + "-" + c
  {
    HyphenateNoSpace(a, false);
    HyphenateNoSpace(b, false);
    HyphenateNoSpace(c, false);
    HyphenateRun(s1);
    HyphenateRun(s2);
    HyphenateConcat(a, s1);
    HyphenateConcat(a + s1, b);
    HyphenateConcat(a + s1 + b, s2);
    HyphenateConcat(a + s1 + b + s2, c);
  }

  /** Hyphens already in the title are kept next to the one a space run becomes. */
  lemma HyphensKeptExample()
    ensures ConvertToSlug("a - b") == "a---b"
  {
    HyphensKeptFiltered("a - b");
    HyphensKeptHyphenated("a - b");
  }

  lemma HyphensKeptFiltered(title: seq<char>)
    requires title == "a - b"
    ensures Filtered(title) == title
  {
    FilteredKeepsAllowed(title);
    assert ToLowerCase(title) == title;
  }

  lemma HyphensKeptHyphenated(filtered: seq<char>)
    requires filtered == "a - b"
    ensures HyphenateSpaces(filtered) == "a---b"
  {
    assert filtered == "a" + " " + "-" + " " + "b";
    HyphenateThreeWords("a", " ", "-", " ", "b");
    assert "a" + "-" + "-" + "-" + "b" == "a---b";
  }
}
