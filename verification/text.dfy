/** Character classes of JavaScript regular expressions, and the sequence
    helpers that slug generation and page-number parsing share. */
module Text {

  /** `\w` in a JavaScript regular expression without the `u` flag. */
  predicate IsWordChar(c: char) {
    ('a' <= c <= 'z') || ('A' <= c <= 'Z') || ('0' <= c <= '9') || c == '_'
  }

  /** `\s` in a JavaScript regular expression: the WhiteSpace and
      LineTerminator code points of ECMAScript. `Number(text)` trims the same set. */
  predicate IsSpace(c: char) {
    var n := c as int;
    if n < 0xA0 then n == 0x20 || 0x09 <= n <= 0x0D
    else IsWideSpace(n)
  }

  /** The white space code points outside ASCII: no-break space, the Zs
      separators, the line and paragraph separators, and the byte order mark. */
  predicate IsWideSpace(n: int) {
    || n == 0xA0 || n == 0x1680
    || (0x2000 <= n <= 0x200A)
    || n == 0x2028 || n == 0x2029 || n == 0x202F || n == 0x205F
    || n == 0x3000 || n == 0xFEFF
  }

  predicate IsDigit(c: char) {
    '0' <= c <= '9'
  }

  predicate IsAsciiUpper(c: char) {
    'A' <= c <= 'Z'
  }

  predicate NoSpace(s: seq<char>) {
    forall i :: 0 <= i < |s| ==> !IsSpace(s[i])
  }

  predicate AllSpace(s: seq<char>) {
    forall i :: 0 <= i < |s| ==> IsSpace(s[i])
  }

  /** The elements of `s` that satisfy `keep`, in their original order. */
  function Filter(keep: char -> bool, s: seq<char>): (r: seq<char>)
    ensures |r| <= |s|
    ensures forall i :: 0 <= i < |r| ==> keep(r[i])
    ensures forall x :: x in r <==> x in s && keep(x)
  {
    if s == [] then []
    else if keep(s[0]) then [s[0]] + Filter(keep, s[1..])
    else Filter(keep, s[1..])
  }

  /** Filtering distributes over concatenation. */
  lemma {:induction false} FilterConcat(keep: char -> bool, a: seq<char>, b: seq<char>)
    ensures Filter(keep, a + b) == Filter(keep, a) + Filter(keep, b)
  {
    if a != [] {
      assert (a + b)[1..] == a[1..] + b;
      FilterConcat(keep, a[1..], b);
    } else {
      assert a + b == b;
    }
  }

  /** A filter that keeps every element changes nothing. */
  lemma {:induction false} FilterKeepsAll(keep: char -> bool, s: seq<char>)
    requires forall i :: 0 <= i < |s| ==> keep(s[i])
    ensures Filter(keep, s) == s
  {
    if s != [] {
      FilterKeepsAll(keep, s[1..]);
    }
  }

  /** Filtering with a narrower predicate after a wider one is the same as
      filtering with the narrower predicate alone. */
  lemma {:induction false} FilterNarrower(narrow: char -> bool, wide: char -> bool, s: seq<char>)
    requires forall x :: narrow(x) ==> wide(x)
    ensures Filter(narrow, Filter(wide, s)) == Filter(narrow, s)
  {
    if s != [] {
      FilterNarrower(narrow, wide, s[1..]);
    }
  }

  /** `s` without its leading white space. */
  function DropLeadingSpaces(s: seq<char>): (r: seq<char>)
    ensures r == [] || !IsSpace(r[0])
    ensures s == [] || !IsSpace(s[0]) ==> r == s
  {
    if s == [] || !IsSpace(s[0]) then s else DropLeadingSpaces(s[1..])
  }

  /** `s` without its trailing white space. */
  function DropTrailingSpaces(s: seq<char>): (r: seq<char>)
    ensures r == [] || !IsSpace(r[|r| - 1])
    ensures |r| <= |s| && (r != [] ==> r[0] == s[0])
    ensures s == [] || !IsSpace(s[|s| - 1]) ==> r == s
  {
    if s == [] || !IsSpace(s[|s| - 1]) then s else DropTrailingSpaces(s[..|s| - 1])
  }

  /** `String.prototype.trim`: the part of `s` between its leading and its
      trailing white space. */
  function Trim(s: seq<char>): (r: seq<char>)
    ensures r == [] || (!IsSpace(r[0]) && !IsSpace(r[|r| - 1]))
    ensures s == [] || (!IsSpace(s[0]) && !IsSpace(s[|s| - 1])) ==> r == s
    ensures exists i, j :: 0 <= i <= j <= |s| && r == s[i..j] && AllSpace(s[..i]) && AllSpace(s[j..])
  {
    TrimIsInfix(s);
    DropTrailingSpaces(DropLeadingSpaces(s))
  }

  /** What `DropLeadingSpaces` removes is a prefix of white space. */
  lemma {:induction false} DropLeadingIsSuffix(s: seq<char>)
    ensures exists k :: 0 <= k <= |s| && DropLeadingSpaces(s) == s[k..] && AllSpace(s[..k])
  {
    if s == [] || !IsSpace(s[0]) {
      assert DropLeadingSpaces(s) == s[0..] && s[..0] == [];
    } else {
      DropLeadingIsSuffix(s[1..]);
      var k :| 0 <= k <= |s[1..]| && DropLeadingSpaces(s[1..]) == s[1..][k..] && AllSpace(s[1..][..k]);
      SpacePrefixGrows(s, k);
    }
  }

  lemma SpacePrefixGrows(s: seq<char>, k: nat)
    requires s != [] && IsSpace(s[0]) && k <= |s| - 1 && AllSpace(s[1..][..k])
    ensures s[1..][k..] == s[k + 1..] && AllSpace(s[..k + 1])
  {
  }

  /** What `DropTrailingSpaces` removes is a suffix of white space. */
  lemma {:induction false} DropTrailingIsPrefix(s: seq<char>)
    ensures exists k :: 0 <= k <= |s| && DropTrailingSpaces(s) == s[..k] && AllSpace(s[k..])
  {
    if s == [] || !IsSpace(s[|s| - 1]) {
      assert DropTrailingSpaces(s) == s[..|s|] && s[|s|..] == [];
    } else {
      var init := s[..|s| - 1];
      DropTrailingIsPrefix(init);
      var k :| 0 <= k <= |init| && DropTrailingSpaces(init) == init[..k] && AllSpace(init[k..]);
      SpaceSuffixGrows(s, k);
    }
  }

  lemma SpaceSuffixGrows(s: seq<char>, k: nat)
    requires s != [] && IsSpace(s[|s| - 1]) && k <= |s| - 1 && AllSpace(s[..|s| - 1][k..])
    ensures s[..|s| - 1][..k] == s[..k] && AllSpace(s[k..])
  {
  }

  lemma TrimIsInfix(s: seq<char>)
    ensures var r := DropTrailingSpaces(DropLeadingSpaces(s));
            exists i, j :: 0 <= i <= j <= |s| && r == s[i..j] && AllSpace(s[..i]) && AllSpace(s[j..])
  {
    var d := DropLeadingSpaces(s);
    DropLeadingIsSuffix(s);
    var i :| 0 <= i <= |s| && d == s[i..] && AllSpace(s[..i]);
    DropTrailingIsPrefix(d);
    var k :| 0 <= k <= |d| && DropTrailingSpaces(d) == d[..k] && AllSpace(d[k..]);
    InfixOfSuffix(s, i, k);
  }

  lemma InfixOfSuffix(s: seq<char>, i: nat, k: nat)
    requires i <= |s| && k <= |s| - i && AllSpace(s[i..][k..])
    ensures s[i..][..k] == s[i..i + k] && AllSpace(s[i + k..])
  {
  }

  /** Trimming white space around a text that neither starts nor ends with
      white space gives that text back: with `Trim`'s contract, this pins
      `Trim(s)` down for every `s`. */
  lemma TrimPadded(a: seq<char>, m: seq<char>, b: seq<char>)
    requires AllSpace(a) && AllSpace(b)
    requires m == [] || (!IsSpace(m[0]) && !IsSpace(m[|m| - 1]))
    ensures Trim(a + m + b) == m
  {
    if m == [] {
      assert a + m + b == a + b;
      DropLeadingPadded(a + b, []);
      assert a + b + [] == a + b;
    } else {
      assert a + m + b == a + (m + b);
      DropLeadingPadded(a, m + b);
      DropTrailingPadded(m, b);
    }
  }

  lemma {:induction false} DropLeadingPadded(a: seq<char>, m: seq<char>)
    requires AllSpace(a) && (m == [] || !IsSpace(m[0]))
    ensures DropLeadingSpaces(a + m) == m
  {
    if a == [] {
      assert a + m == m;
    } else {
      assert (a + m)[1..] == a[1..] + m;
      DropLeadingPadded(a[1..], m);
    }
  }

  lemma {:induction false} DropTrailingPadded(m: seq<char>, b: seq<char>)
    requires AllSpace(b) && (m == [] || !IsSpace(m[|m| - 1]))
    ensures DropTrailingSpaces(m + b) == m
  {
    if b == [] {
      assert m + b == m;
    } else {
      var mb := m + b;
      assert mb[..|mb| - 1] == m + b[..|b| - 1];
      DropTrailingPadded(m, b[..|b| - 1]);
    }
  }
}
