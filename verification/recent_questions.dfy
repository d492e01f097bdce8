/** The fetch-recent-questions controller: the `page` query is defaulted,
    converted to a number and checked against its minimum, and the answer is
    one page of the questions ordered by creation time, newest first. */
module RecentQuestions {
  import opened Common
  import opened Text
  import opened Questions

  /** Questions per page, which is also the number taken. */
  const PerPage: nat := 1
  /** The value of an absent `page` query. */
  const DefaultPage: string := "1"
  /** The smallest page number the query accepts. */
  const MinPage: int := 1
  /** `Number.MAX_SAFE_INTEGER`, 2^53 - 1: up to here `Number` reads a decimal
      integer exactly, beyond it the result is a rounded double. */
  const MaxSafeInteger: nat := 0x1F_FFFF_FFFF_FFFF

  function Min(a: int, b: int): int {
    if a <= b then a else b
  }

  // ----- Converting the query to a number -----

  predicate AllDigits(s: seq<char>) {
    forall i :: 0 <= i < |s| ==> IsDigit(s[i])
  }

  function DigitValue(c: char): (d: nat)
    requires IsDigit(c)
    ensures d < 10
  {
    c as int - '0' as int
  }

  function DigitChar(d: nat): (c: char)
    requires d < 10
    ensures IsDigit(c) && DigitValue(c) == d
  {
    ('0' as int + d) as char
  }

  /** The value of a string of decimal digits. */
  function DecimalValue(s: seq<char>): nat
    requires AllDigits(s)
  {
    if s == [] then 0 else DecimalValue(s[..|s| - 1]) * 10 + DigitValue(s[|s| - 1])
  }

  /** The decimal digits of `n`, without leading zeros. */
  function DecimalString(n: nat): (s: seq<char>)
    ensures s != [] && AllDigits(s)
  {
    if n < 10 then [DigitChar(n)] else DecimalString(n / 10) + [DigitChar(n % 10)]
  }

  /** Reading back the digits of `n` gives `n`. */
  lemma {:induction false} DecimalRoundTrip(n: nat)
    ensures DecimalValue(DecimalString(n)) == n
  {
    var s := DecimalString(n);
    if n >= 10 {
      assert s[..|s| - 1] == DecimalString(n / 10);
      DecimalRoundTrip(n / 10);
    }
  }

  /** `Number(text)` for the texts that are decimal integers after trimming,
      with an optional sign; an empty or all-blank text is 0. Every other text
      is `None`, standing for NaN. */
  function StringToNumber(text: string): (r: Option<int>)
    ensures var t := Trim(text);
            && (t == [] ==> r == Some(0))
            && (t != [] && AllDigits(t) ==> r == Some(DecimalValue(t)))
            && (|t| > 1 && t[0] == '+' && AllDigits(t[1..]) ==> r == Some(DecimalValue(t[1..])))
            && (|t| > 1 && t[0] == '-' && AllDigits(t[1..]) ==> r == Some(-(DecimalValue(t[1..]) as int)))
            && (r.None? <==> t != [] && !AllDigits(t) && !(|t| > 1 && (t[0] == '+' || t[0] == '-') && AllDigits(t[1..])))
  {
    var t := Trim(text);
    if t == [] then Some(0)
    else if (t[0] == '+' || t[0] == '-') && |t| > 1 && AllDigits(t[1..]) then
      Some(if t[0] == '-' then -(DecimalValue(t[1..]) as int) else DecimalValue(t[1..]))
    else if AllDigits(t) then Some(DecimalValue(t))
    else None
  }

  /** The page query pipe: an absent value becomes `DefaultPage`, the text is
      converted to a number, and anything that is not a number of at least
      `MinPage` is refused. */
  function ParsePage(raw: Option<string>): (r: Result<int>)
    ensures r.Ok? ==> r.value >= MinPage
    ensures r.Fail? ==> r.error == BadRequest
    ensures var n := StringToNumber(if raw.Some? then raw.value else DefaultPage);
            && (r.Ok? <==> n.Some? && n.value >= MinPage)
            && (r.Ok? ==> n == Some(r.value))
  {
    var text := if raw.Some? then raw.value else DefaultPage;
    match StringToNumber(text)
    case None => Fail(BadRequest)
    case Some(n) => if n < MinPage then Fail(BadRequest) else Ok(n)
  }

  /** Converting the decimal digits of `n` gives `n`. */
  lemma DecimalNumber(n: nat)
    requires n <= MaxSafeInteger
    ensures StringToNumber(DecimalString(n)) == Some(n)
  {
    var e: seq<char> := [];
    PaddedDecimalNumber(e, e, n, e);
    assert e + e + DecimalString(n) + e == DecimalString(n);
  }

  /** White space around the number and zeros in front of it do not change it. */
  lemma PaddedDecimalNumber(before: seq<char>, zeros: seq<char>, n: nat, after: seq<char>)
    requires AllSpace(before) && AllSpace(after) && n <= MaxSafeInteger
    requires forall i :: 0 <= i < |zeros| ==> zeros[i] == '0'
    ensures StringToNumber(before + zeros + DecimalString(n) + after) == Some(n)
  {
    var d := zeros + DecimalString(n);
    assert before + zeros + DecimalString(n) + after == before + d + after;
    assert IsDigit(d[0]) && IsDigit(d[|d| - 1]);
    TrimPadded(before, d, after);
    LeadingZerosIgnored(zeros, DecimalString(n));
    DecimalRoundTrip(n);
  }

  /** Zeros in front of a decimal numeral do not change its value. */
  lemma {:induction false} LeadingZerosIgnored(zeros: seq<char>, s: seq<char>)
    requires forall i :: 0 <= i < |zeros| ==> zeros[i] == '0'
    requires AllDigits(s)
    ensures AllDigits(zeros + s) && DecimalValue(zeros + s) == DecimalValue(s)
  {
    if s == [] {
      assert zeros + s == zeros;
      ZerosAreZero(zeros);
    } else {
      var zs := zeros + s;
      assert zs[..|zs| - 1] == zeros + s[..|s| - 1];
      LeadingZerosIgnored(zeros, s[..|s| - 1]);
    }
  }

  lemma {:induction false} ZerosAreZero(zeros: seq<char>)
    requires forall i :: 0 <= i < |zeros| ==> zeros[i] == '0'
    ensures AllDigits(zeros) && DecimalValue(zeros) == 0
  {
    if zeros != [] {
      ZerosAreZero(zeros[..|zeros| - 1]);
    }
  }

  /** A page written in decimal, with white space around it and zeros in
      front, is accepted as its value exactly when that is at least 1. */
  lemma PaddedPageAccepted(before: seq<char>, zeros: seq<char>, n: nat, after: seq<char>)
    requires AllSpace(before) && AllSpace(after) && n <= MaxSafeInteger
    requires forall i :: 0 <= i < |zeros| ==> zeros[i] == '0'
    ensures ParsePage(Some(before + zeros + DecimalString(n) + after))
              == if n >= MinPage then Ok(n) else Fail(BadRequest)
  {
    PaddedDecimalNumber(before, zeros, n, after);
  }

  /** An absent page is page 1. */
  lemma AbsentPageIsFirst()
    ensures ParsePage(None) == Ok(1)
  {
  }

  /** A page written in decimal is accepted exactly when it is at least 1,
      and then read as itself. */
  lemma {:induction false} DecimalPageAccepted(n: nat)
    requires n <= MaxSafeInteger
    ensures ParsePage(Some(DecimalString(n))) == if n >= MinPage then Ok(n) else Fail(BadRequest)
  {
    DecimalNumber(n);
  }

  /** A negative page is refused. */
  lemma NegativePageRejected(n: nat)
    ensures ParsePage(Some("-" + DecimalString(n))).Fail?
  {
  }

  /** Pages the query refuses: zero, a negative number, letters, and the
      empty text, which converts to 0. */
  lemma RejectedPageExamples()
    ensures ParsePage(Some("0")).Fail?
    ensures ParsePage(Some("-2")).Fail?
    ensures ParsePage(Some("abc")).Fail?
    ensures ParsePage(Some("")).Fail?
  {
  }

  /** The number of questions the listing skips. */
  function Skip(page: int): (skip: int)
    requires page >= MinPage
    ensures skip >= 0
    ensures skip / PerPage + 1 == page && skip % PerPage == 0
  {
    (page - 1) * PerPage
  }

  // ----- Ordering by creation time, newest first -----

  predicate NewestFirst(qs: seq<Question>) {
    forall i, j :: 0 <= i < j < |qs| ==> qs[i].createdAt >= qs[j].createdAt
  }

  predicate DistinctTimestamps(qs: seq<Question>) {
    forall i, j :: 0 <= i < j < |qs| ==> qs[i].createdAt != qs[j].createdAt
  }

  function InsertByCreatedAt(q: Question, sorted: seq<Question>): (r: seq<Question>)
    requires NewestFirst(sorted)
    ensures NewestFirst(r)
    ensures multiset(r) == multiset(sorted) + multiset{q}
    ensures forall i :: 0 <= i < |r| ==> r[i] == q || r[i] in sorted
  {
    if sorted == [] || q.createdAt >= sorted[0].createdAt then [q] + sorted
    else
      var rest := InsertByCreatedAt(q, sorted[1..]);
      KeepHead(q, sorted, rest);
      [sorted[0]] + rest
  }

  /** When `q` goes after the head of `sorted`, the head stays in front. */
  lemma KeepHead(q: Question, sorted: seq<Question>, rest: seq<Question>)
    requires sorted != [] && NewestFirst(sorted) && q.createdAt < sorted[0].createdAt
    requires NewestFirst(rest)
    requires multiset(rest) == multiset(sorted[1..]) + multiset{q}
    requires forall i :: 0 <= i < |rest| ==> rest[i] == q || rest[i] in sorted[1..]
    ensures NewestFirst([sorted[0]] + rest)
    ensures multiset([sorted[0]] + rest) == multiset(sorted) + multiset{q}
    ensures forall i :: 0 <= i < |rest| + 1 ==> ([sorted[0]] + rest)[i] == q || ([sorted[0]] + rest)[i] in sorted
  {
    assert sorted == [sorted[0]] + sorted[1..];
    forall i | 0 <= i < |rest| ensures rest[i].createdAt <= sorted[0].createdAt {
      if rest[i] != q {
        var j :| 0 <= j < |sorted[1..]| && sorted[1..][j] == rest[i];
        assert sorted[j + 1] == rest[i];
      }
    }
  }

  /** The order the listing reads the table in: every question once, newest first. */
  function SortNewestFirst(qs: seq<Question>): (r: seq<Question>)
    ensures NewestFirst(r)
    ensures multiset(r) == multiset(qs)
  {
    if qs == [] then []
    else
      assert qs == [qs[0]] + qs[1..];
      InsertByCreatedAt(qs[0], SortNewestFirst(qs[1..]))
  }

  /** With distinct creation times there is only one newest-first order of a
      table, so the listing does not depend on how the order is computed. */
  lemma {:induction false} NewestFirstIsUnique(a: seq<Question>, b: seq<Question>)
    requires NewestFirst(a) && NewestFirst(b) && DistinctTimestamps(a)
    requires multiset(a) == multiset(b)
    ensures a == b
  {
    assert |a| == |multiset(a)| == |multiset(b)| == |b|;
    if a != [] {
      SameNewest(a, b);
      SameTails(a, b);
      NewestFirstIsUnique(a[1..], b[1..]);
      assert a == [a[0]] + a[1..] && b == [b[0]] + b[1..];
    }
  }

  /** Dropping a common newest question keeps both orders newest first, over
      the same questions. */
  lemma SameTails(a: seq<Question>, b: seq<Question>)
    requires NewestFirst(a) && NewestFirst(b) && DistinctTimestamps(a)
    requires multiset(a) == multiset(b) && a != [] && b != [] && a[0] == b[0]
    ensures NewestFirst(a[1..]) && NewestFirst(b[1..]) && DistinctTimestamps(a[1..])
    ensures multiset(a[1..]) == multiset(b[1..])
  {
    assert a == [a[0]] + a[1..] && b == [b[0]] + b[1..];
    assert multiset(a[1..]) == multiset(a) - multiset{a[0]};
    assert multiset(b[1..]) == multiset(b) - multiset{b[0]};
  }

  /** Two newest-first orders of the same questions with distinct creation
      times start with the same question. */
  lemma SameNewest(a: seq<Question>, b: seq<Question>)
    requires NewestFirst(a) && NewestFirst(b) && DistinctTimestamps(a)
    requires multiset(a) == multiset(b) && a != [] && b != []
    ensures a[0] == b[0]
  {
    assert a[0] in multiset(b) && b[0] in multiset(a);
    var k :| 0 <= k < |a| && a[k] == b[0];
    var m :| 0 <= m < |b| && b[m] == a[0];
    assert a[0].createdAt >= a[k].createdAt;
    assert b[0].createdAt >= b[m].createdAt;
    assert a[k].createdAt == a[0].createdAt;
    assert k == 0;
  }

  // ----- Pages -----

  /** The questions on `page` of a newest-first sequence. */
  function PageOf(sorted: seq<Question>, page: int): (r: seq<Question>)
    requires page >= MinPage
    ensures |r| <= PerPage
    ensures |r| == if Skip(page) < |sorted| then Min(PerPage, |sorted| - Skip(page)) else 0
    ensures forall i :: 0 <= i < |r| ==> r[i] == sorted[Skip(page) + i]
  {
    var skip := Skip(page);
    if skip >= |sorted| then [] else sorted[skip..Min(skip + PerPage, |sorted|)]
  }

  /** The listing: refuses a malformed page, and otherwise answers with that
      page of the table in newest-first order. */
  function FetchRecentQuestions(questions: seq<Question>, rawPage: Option<string>): (r: Result<seq<Question>>)
    ensures r.Fail? <==> ParsePage(rawPage).Fail?
    ensures r.Fail? ==> r.error == BadRequest
    ensures r.Ok? ==> |r.value| <= PerPage
    ensures r.Ok? ==> forall i :: 0 <= i < |r.value| ==> r.value[i] in questions
  {
    match ParsePage(rawPage)
    case Fail(e) => Fail(e)
    case Ok(page) =>
      var sorted := SortNewestFirst(questions);
      var r := PageOf(sorted, page);
      assert forall i :: 0 <= i < |r| ==> r[i] in questions by {
        forall i | 0 <= i < |r| ensures r[i] in questions {
          assert r[i] in multiset(sorted);
        }
      }
      Ok(r)
  }

  /** An accepted page is the slice of the newest-first table starting at its
      offset and holding at most `PerPage` questions. */
  lemma FetchIsSlice(questions: seq<Question>, rawPage: Option<string>)
    requires ParsePage(rawPage).Ok?
    ensures var sorted := SortNewestFirst(questions);
            var skip := Skip(ParsePage(rawPage).value);
            FetchRecentQuestions(questions, rawPage)
              == Ok(sorted[Min(skip, |sorted|)..Min(skip + PerPage, |sorted|)])
  {
    var sorted := SortNewestFirst(questions);
    var page := ParsePage(rawPage).value;
    var skip := Skip(page);
    assert FetchRecentQuestions(questions, rawPage) == Ok(PageOf(sorted, page));
    if skip >= |sorted| {
      assert sorted[Min(skip, |sorted|)..Min(skip + PerPage, |sorted|)] == [];
    }
  }

  /** Page 1 holds the newest question, or nothing when the table is empty. */
  lemma FirstPageIsNewest(questions: seq<Question>)
    ensures var r := FetchRecentQuestions(questions, None);
            && r.Ok?
            && (questions == [] ==> r.value == [])
            && (questions != [] ==>
                  && |r.value| == 1 && r.value[0] in questions
                  && forall x :: x in questions ==> x.createdAt <= r.value[0].createdAt)
  {
    AbsentPageIsFirst();
    var sorted := SortNewestFirst(questions);
    if questions != [] {
      assert |sorted| == |multiset(sorted)| == |questions|;
      forall x | x in questions ensures x.createdAt <= sorted[0].createdAt {
        assert x in multiset(sorted);
        var j :| 0 <= j < |sorted| && sorted[j] == x;
      }
    } else {
      assert |sorted| == |multiset(sorted)| == 0;
    }
  }

  /** A question newer than every stored one is, once stored, alone on page 1. */
  lemma NewestIsListedFirst(questions: seq<Question>, q: Question)
    requires forall i :: 0 <= i < |questions| ==> questions[i].createdAt < q.createdAt
    ensures FetchRecentQuestions(questions + [q], None) == Ok([q])
  {
    var qs := questions + [q];
    FirstPageIsNewest(qs);
    var top := FetchRecentQuestions(qs, None).value[0];
    assert q == qs[|questions|] && top.createdAt >= q.createdAt;
    var j :| 0 <= j < |qs| && qs[j] == top;
    assert j == |questions|;
  }

  /** A page whose offset reaches the end of the table is empty. */
  lemma PageBeyondEndIsEmpty(questions: seq<Question>, page: nat)
    requires page >= MinPage && Skip(page) >= |questions| && page <= MaxSafeInteger
    ensures FetchRecentQuestions(questions, Some(DecimalString(page))) == Ok([])
  {
    DecimalPageAccepted(page);
    var sorted := SortNewestFirst(questions);
    assert |sorted| == |multiset(sorted)| == |questions|;
  }

  /** Pages `p` and `p + 1` are adjacent slices: together they are the
      slice starting at page `p`'s offset, twice as long. */
  lemma AdjacentPages(sorted: seq<Question>, p: int)
    requires p >= MinPage
    ensures var n := |sorted|;
            PageOf(sorted, p) + PageOf(sorted, p + 1)
              == sorted[Min(Skip(p), n)..Min(Skip(p) + 2 * PerPage, n)]
  {
  }

  /** Pages 1 to `k` in a row. */
  function Pages(sorted: seq<Question>, k: nat): seq<Question> {
    if k == 0 then [] else Pages(sorted, k - 1) + PageOf(sorted, k)
  }

  /** Reading pages 1 to `k` in a row gives the first `k * PerPage` questions,
      each exactly once. */
  lemma {:induction false} PagesTile(sorted: seq<Question>, k: nat)
    ensures Pages(sorted, k) == sorted[..Min(k * PerPage, |sorted|)]
  {
    if k > 0 {
      PagesTile(sorted, k - 1);
      var lo := Min((k - 1) * PerPage, |sorted|);
      var hi := Min(k * PerPage, |sorted|);
      assert PageOf(sorted, k) == sorted[lo..hi];
      assert sorted[..lo] + sorted[lo..hi] == sorted[..hi];
    }
  }
}
