/**
 * `detect_ssn`: `re.finditer` over the page text, one entity per match.
 * The scanner tries each position from left to right; after a match it
 * resumes at the match's end, so matches never overlap.
 */
module SsnDetector {
  import opened Common
  import opened SsnPattern

  /** Which of the two `detect_ssn` patterns a script uses. */
  datatype Pattern =
    | PdfPattern    // main_pdf_re.py line 49
    | TiffPattern   // main_tiff_re.py line 40

  /** The end of the match of `p` at `i`, if any. Neither pattern matches
      the empty string. */
  function MatchAt(p: Pattern, t: string, i: nat): (e: Option<nat>)
    requires i <= |t|
    ensures e.Some? ==> i < e.value <= |t|
  {
    match p
    case PdfPattern => PdfMatchAt(t, i)
    case TiffPattern => TiffMatchAt(t, i)
  }

  datatype Span = Span(begin: nat, end: nat)

  /** A matcher over a text of length `n`: `m(i)` is the end of the match at
      `i`, if any, and matches are never empty. */
  ghost predicate Matcher(m: nat -> Option<nat>, n: nat)
  {
    forall i: nat :: m(i).Some? ==> i < m(i).value <= n
  }

  /** Every span is a match starting at or after `pos`. */
  ghost predicate AllMatch(m: nat -> Option<nat>, n: nat, pos: nat, spans: seq<Span>)
  {
    forall k :: 0 <= k < |spans| ==> pos <= spans[k].begin <= n && m(spans[k].begin) == Some(spans[k].end)
  }

  /** Spans come left to right and do not overlap. */
  ghost predicate Ordered(spans: seq<Span>)
  {
    forall j, k :: 0 <= j < k < |spans| ==> spans[j].end <= spans[k].begin
  }

  /** Every position from `pos` on where a match starts lies inside some
      span: nothing a left-to-right scan could have found is skipped. */
  ghost predicate Covered(m: nat -> Option<nat>, n: nat, pos: nat, spans: seq<Span>)
  {
    forall i: nat :: pos <= i <= n && m(i).Some? ==> InSpan(spans, i)
  }

  /** Position `i` lies inside one of the spans. */
  ghost predicate InSpan(spans: seq<Span>, i: nat)
  {
    exists k :: 0 <= k < |spans| && spans[k].begin <= i < spans[k].end
  }

  /** `re.finditer` from `pos`: try each position in turn and, after a
      match, resume at its end. */
  function Scan(m: nat -> Option<nat>, n: nat, pos: nat): (spans: seq<Span>)
    requires Matcher(m, n) && pos <= n
    decreases n - pos
  {
    if pos == n then []
    else
      match m(pos)
      case Some(e) => [Span(pos, e)] + Scan(m, n, e)
      case None => Scan(m, n, pos + 1)
  }

  /** Every span the scan returns is a match at or after `pos`. */
  lemma {:induction false} ScanMatches(m: nat -> Option<nat>, n: nat, pos: nat)
    requires Matcher(m, n) && pos <= n
    ensures AllMatch(m, n, pos, Scan(m, n, pos))
    decreases n - pos
  {
    if pos < n {
      match m(pos)
      case Some(e) =>
        ScanMatches(m, n, e);
        assert Scan(m, n, pos) == [Span(pos, e)] + Scan(m, n, e);
      case None =>
        ScanMatches(m, n, pos + 1);
    }
  }

  /** The scan's spans come left to right without overlapping. */
  lemma {:induction false} ScanOrdered(m: nat -> Option<nat>, n: nat, pos: nat)
    requires Matcher(m, n) && pos <= n
    ensures Ordered(Scan(m, n, pos))
    decreases n - pos
  {
    if pos < n {
      match m(pos)
      case Some(e) =>
        var rest := Scan(m, n, e);
        ScanMatches(m, n, e);
        ScanOrdered(m, n, e);
        var spans := [Span(pos, e)] + rest;
        assert Scan(m, n, pos) == spans;
        forall j, k | 0 <= j < k < |spans|
          ensures spans[j].end <= spans[k].begin
        {
          assert spans[k] == rest[k - 1];
          if j > 0 { assert spans[j] == rest[j - 1]; }
        }
      case None =>
        ScanOrdered(m, n, pos + 1);
    }
  }

  /** The scan misses no position where a match starts. */
  lemma {:induction false} ScanComplete(m: nat -> Option<nat>, n: nat, pos: nat)
    requires Matcher(m, n) && pos <= n
    ensures Covered(m, n, pos, Scan(m, n, pos))
    decreases n - pos
  {
    if pos < n {
      match m(pos)
      case Some(e) =>
        var rest := Scan(m, n, e);
        ScanComplete(m, n, e);
        var spans := [Span(pos, e)] + rest;
        assert Scan(m, n, pos) == spans;
        forall i: nat | pos <= i <= n && m(i).Some?
          ensures InSpan(spans, i)
        {
          if i < e {
            assert spans[0].begin <= i < spans[0].end;
          } else {
            var j :| 0 <= j < |rest| && rest[j].begin <= i < rest[j].end;
            assert spans[j + 1] == rest[j];
          }
        }
      case None =>
        ScanComplete(m, n, pos + 1);
    }
  }

  /** The three properties of a scan from `pos`. */
  ghost predicate Scanned(m: nat -> Option<nat>, n: nat, pos: nat, spans: seq<Span>)
  {
    AllMatch(m, n, pos, spans) && Ordered(spans) && Covered(m, n, pos, spans)
  }

  /** The three properties pin the scan down: any list of spans that has them
      is the one `Scan` returns. */
  lemma {:induction false} ScanUnique(m: nat -> Option<nat>, n: nat, pos: nat, spans: seq<Span>)
    requires Matcher(m, n) && pos <= n
    requires Scanned(m, n, pos, spans)
    ensures spans == Scan(m, n, pos)
    decreases n - pos
  {
    if pos == n {
      NoSpanAtEnd(m, n, spans);
    } else if m(pos).Some? {
      var e := m(pos).value;
      FirstSpan(m, n, pos, spans, e);
      ScanUnique(m, n, e, spans[1..]);
      ConsScan(m, n, pos, e, spans);
    } else {
      NoSpanAt(m, n, pos, spans);
      ScanUnique(m, n, pos + 1, spans);
      ScanSkip(m, n, pos);
    }
  }

  /** No match starts at the end of the text, so no span can. */
  lemma NoSpanAtEnd(m: nat -> Option<nat>, n: nat, spans: seq<Span>)
    requires Matcher(m, n)
    requires AllMatch(m, n, n, spans)
    ensures spans == []
  {
    if |spans| > 0 {
      SpanBeforeEnd(m, n, n, spans, 0);
      assert false;
    }
  }

  /** A span starts before the end of the text. */
  lemma SpanBeforeEnd(m: nat -> Option<nat>, n: nat, pos: nat, spans: seq<Span>, k: nat)
    requires Matcher(m, n)
    requires AllMatch(m, n, pos, spans)
    requires k < |spans|
    ensures spans[k].begin < n
  {
    assert m(spans[k].begin) == Some(spans[k].end);
  }

  lemma ConsScan(m: nat -> Option<nat>, n: nat, pos: nat, e: nat, spans: seq<Span>)
    requires Matcher(m, n) && pos < n
    requires m(pos) == Some(e)
    requires |spans| > 0 && spans[0] == Span(pos, e) && spans[1..] == Scan(m, n, e)
    ensures spans == Scan(m, n, pos)
  {
    assert spans == [Span(pos, e)] + spans[1..];
  }

  /** When a match starts at `pos`, it is the first span, and the remaining
      spans have the three properties from its end on. */
  lemma FirstSpan(m: nat -> Option<nat>, n: nat, pos: nat, spans: seq<Span>, e: nat)
    requires Matcher(m, n) && pos <= n
    requires Scanned(m, n, pos, spans)
    requires m(pos) == Some(e)
    ensures |spans| > 0 && spans[0] == Span(pos, e)
    ensures Scanned(m, n, e, spans[1..])
  {
    FirstSpanStarts(m, n, pos, spans, e);
    var rest := spans[1..];
    forall i: nat | e <= i <= n && m(i).Some?
      ensures InSpan(rest, i)
    {
      assert InSpan(spans, i);
      var j :| 0 <= j < |spans| && spans[j].begin <= i < spans[j].end;
      assert rest[j - 1] == spans[j];
    }
    forall k | 0 <= k < |rest|
      ensures e <= rest[k].begin <= n && m(rest[k].begin) == Some(rest[k].end)
    {
      assert rest[k] == spans[k + 1];
    }
    forall j, k | 0 <= j < k < |rest|
      ensures rest[j].end <= rest[k].begin
    {
      assert rest[j] == spans[j + 1] && rest[k] == spans[k + 1];
    }
    assert AllMatch(m, n, e, rest) && Ordered(rest) && Covered(m, n, e, rest);
  }

  lemma FirstSpanStarts(m: nat -> Option<nat>, n: nat, pos: nat, spans: seq<Span>, e: nat)
    requires Matcher(m, n) && pos <= n
    requires AllMatch(m, n, pos, spans) && Ordered(spans)
    requires InSpan(spans, pos)
    requires m(pos) == Some(e)
    ensures |spans| > 0 && spans[0] == Span(pos, e)
  {
    var k :| 0 <= k < |spans| && spans[k].begin <= pos < spans[k].end;
    assert m(spans[0].begin) == Some(spans[0].end);
  }

  /** When no match starts at `pos`, no span starts there either. */
  lemma NoSpanAt(m: nat -> Option<nat>, n: nat, pos: nat, spans: seq<Span>)
    requires Matcher(m, n) && pos <= n
    requires Scanned(m, n, pos, spans)
    requires m(pos).None?
    ensures Scanned(m, n, pos + 1, spans)
  {
    forall k | 0 <= k < |spans|
      ensures pos + 1 <= spans[k].begin
    {
      if k > 0 {
        assert spans[0].end <= spans[k].begin;
        assert m(spans[0].begin) == Some(spans[0].end);
      } else {
        assert m(spans[0].begin).Some?;
      }
    }
  }

  /** The matcher of pattern `p` over `t`. */
  function Matches(p: Pattern, t: string): nat -> Option<nat>
  {
    (i: nat) => if i <= |t| then MatchAt(p, t, i) else None
  }

  function ToEntities(spans: seq<Span>): (entities: seq<Entity>)
    ensures |entities| == |spans|
  {
    if |spans| == 0 then []
    else [Entity(spans[0].begin, spans[0].end, 1.0, "SSN")] + ToEntities(spans[1..])
  }

  /** `detect_ssn(text)['Entities']`: one record per match, Score 1.0 and
      Type 'SSN'. */
  function DetectSsn(p: Pattern, t: string): seq<Entity>
  {
    ToEntities(Scan(Matches(p, t), |t|, 0))
  }

  lemma {:induction false} ToEntitiesAt(spans: seq<Span>, k: nat)
    requires k < |spans|
    ensures ToEntities(spans)[k] == Entity(spans[k].begin, spans[k].end, 1.0, "SSN")
  {
    if k > 0 {
      ToEntitiesAt(spans[1..], k - 1);
    }
  }

  /** What `detect_ssn` returns: each record is a match of the pattern, with
      Score 1.0 and Type 'SSN'; records come left to right without
      overlapping; and every position where the pattern matches lies inside
      some record. */
  lemma DetectSsnSpec(p: Pattern, t: string)
    ensures var es := DetectSsn(p, t);
            && (forall k :: 0 <= k < |es| ==>
                  es[k].beginOffset < es[k].endOffset <= |t| &&
                  MatchAt(p, t, es[k].beginOffset) == Some(es[k].endOffset) &&
                  es[k].score == 1.0 && es[k].kind == "SSN")
            && (forall j, k :: 0 <= j < k < |es| ==> es[j].endOffset <= es[k].beginOffset)
            && (forall i: nat :: i <= |t| && MatchAt(p, t, i).Some? ==>
                  exists k :: 0 <= k < |es| && es[k].beginOffset <= i < es[k].endOffset)
  {
    var m := Matches(p, t);
    var es := ToEntities(Scan(m, |t|, 0));
    assert es == DetectSsn(p, t);
    EntitiesOfScan(m, |t|, es);
    forall k | 0 <= k < |es|
      ensures MatchAt(p, t, es[k].beginOffset) == Some(es[k].endOffset)
    {
      MatchesAt(p, t, es[k].beginOffset);
    }
    forall i: nat | i <= |t| && MatchAt(p, t, i).Some?
      ensures exists k :: 0 <= k < |es| && es[k].beginOffset <= i < es[k].endOffset
    {
      MatchesAt(p, t, i);
    }
  }

  lemma MatchesAt(p: Pattern, t: string, i: nat)
    requires i <= |t|
    ensures Matches(p, t)(i) == MatchAt(p, t, i)
  {
  }

  /** The records built from the scan of any matcher are its matches, in
      order, and cover every position where it matches. */
  lemma EntitiesOfScan(m: nat -> Option<nat>, n: nat, es: seq<Entity>)
    requires Matcher(m, n)
    requires es == ToEntities(Scan(m, n, 0))
    ensures && (forall k :: 0 <= k < |es| ==>
                  es[k].beginOffset < es[k].endOffset <= n &&
                  m(es[k].beginOffset) == Some(es[k].endOffset) &&
                  es[k].score == 1.0 && es[k].kind == "SSN")
            && (forall j, k :: 0 <= j < k < |es| ==> es[j].endOffset <= es[k].beginOffset)
            && (forall i: nat :: i <= n && m(i).Some? ==>
                  exists k :: 0 <= k < |es| && es[k].beginOffset <= i < es[k].endOffset)
  {
    var spans := Scan(m, n, 0);
    ScanMatches(m, n, 0);
    ScanOrdered(m, n, 0);
    ScanComplete(m, n, 0);
    forall k | 0 <= k < |es|
      ensures es[k] == Entity(spans[k].begin, spans[k].end, 1.0, "SSN")
    {
      ToEntitiesAt(spans, k);
    }
    forall i: nat | i <= n && m(i).Some?
      ensures exists k :: 0 <= k < |es| && es[k].beginOffset <= i < es[k].endOffset
    {
      assert InSpan(spans, i);
    }
  }

  /** `detect_ssn` finds something exactly when the pattern matches at some
      position of the text. */
  lemma SomeRecordIffMatch(p: Pattern, t: string)
    ensures |DetectSsn(p, t)| > 0 <==> exists i: nat :: i <= |t| && MatchAt(p, t, i).Some?
  {
    DetectSsnSpec(p, t);
    var es := DetectSsn(p, t);
    if |es| > 0 {
      assert MatchAt(p, t, es[0].beginOffset).Some?;
    }
  }

  /** A text that the pattern matches whole gives exactly one record,
      spanning it. */
  lemma WholeMatch(p: Pattern, t: string)
    requires MatchAt(p, t, 0) == Some(|t|)
    ensures DetectSsn(p, t) == [Entity(0, |t|, 1.0, "SSN")]
  {
    var m := Matches(p, t);
    assert m(0) == Some(|t|);
    assert Scan(m, |t|, 0) == [Span(0, |t|)] + Scan(m, |t|, |t|);
  }

  /** The three forms listed in the docstring of `detect_ssn` in
      main_tiff_re.py each give one record spanning the whole text. */
  lemma TiffDocstringExamples()
    ensures DetectSsn(TiffPattern, "123-45-6789") == [Entity(0, 11, 1.0, "SSN")]
    ensures DetectSsn(TiffPattern, "123 45 6789") == [Entity(0, 11, 1.0, "SSN")]
    ensures DetectSsn(TiffPattern, "123456789") == [Entity(0, 9, 1.0, "SSN")]
  {
    var a, b, c := "123-45-6789", "123 45 6789", "123456789";
    TiffSeparated(a);
    TiffSeparated(b);
    TiffBare(c);
    WholeMatch(TiffPattern, a);
    WholeMatch(TiffPattern, b);
    WholeMatch(TiffPattern, c);
  }

  /** Nine digits with a separator after the third and the fifth match
      line 40 whole. */
  lemma TiffSeparated(t: string)
    requires t == "123-45-6789" || t == "123 45 6789"
    ensures TiffMatchAt(t, 0) == Some(11)
  {
    assert WordBoundary(t, 0) && Prefix(t, 0) == None;
    assert !IsSep(t[0]) && IsSep(t[3]) && IsSep(t[6]);
    assert DigitsAt(t, 0, 3) && DigitsAt(t, 4, 2) && DigitsAt(t, 7, 4);
    assert Tail(t, 0) == Some(11);
  }

  /** Nine bare digits match line 40 whole. */
  lemma TiffBare(t: string)
    requires t == "123456789"
    ensures TiffMatchAt(t, 0) == Some(9)
  {
    assert WordBoundary(t, 0) && Prefix(t, 0) == None;
    assert !IsSep(t[0]) && !IsSep(t[3]) && !IsSep(t[5]);
    assert DigitsAt(t, 0, 3) && DigitsAt(t, 3, 2) && DigitsAt(t, 5, 4);
    assert Tail(t, 0) == Some(9);
  }

  /** Where the pattern matches nowhere, `detect_ssn` returns no records. */
  lemma NoMatchNoEntities(p: Pattern, t: string)
    requires forall i: nat :: i <= |t| ==> MatchAt(p, t, i).None?
    ensures DetectSsn(p, t) == []
  {
    ScanUnique(Matches(p, t), |t|, 0, []);
  }

  /** The pattern of line 49 needs two ASCII letters in front of the digits:
      a text without letters, such as a bare "123-45-6789", gives no
      records. */
  lemma PdfNeedsLetters(t: string)
    requires forall k :: 0 <= k < |t| ==> !IsAsciiLetter(t[k])
    ensures DetectSsn(PdfPattern, t) == []
  {
    NoMatchNoEntities(PdfPattern, t);
  }

  lemma PdfBareNumber()
    ensures DetectSsn(PdfPattern, "123-45-6789") == []
  {
    PdfNeedsLetters("123-45-6789");
  }

  /** With a two-letter word in front, line 49 matches from that word on:
      the record begins at the letters, not at the digits. */
  lemma PdfTwoLetterWord()
    ensures DetectSsn(PdfPattern, "ID 123-45-6789") == [Entity(0, 14, 1.0, "SSN")]
  {
    var t := "ID 123-45-6789";
    PdfAfterLetters(t);
    WholeMatch(PdfPattern, t);
  }

  lemma PdfAfterLetters(t: string)
    requires t == "ID 123-45-6789"
    ensures PdfMatchAt(t, 0) == Some(14)
  {
    assert WordBoundary(t, 0) && IsAsciiLetter(t[0]) && IsAsciiLetter(t[1]);
    assert IsSep(t[2]) && IsSep(t[6]) && IsSep(t[9]);
    assert DigitsAt(t, 3, 3) && DigitsAt(t, 7, 2) && DigitsAt(t, 10, 4);
    assert Tail(t, 2) == Some(14);
  }

  /** After a word, line 40 matches from the separating space on: the record
      begins one character before the digits. */
  lemma TiffAfterWord()
    ensures DetectSsn(TiffPattern, "SSN 123-45-6789") == [Entity(3, 15, 1.0, "SSN")]
  {
    var t := "SSN 123-45-6789";
    var m := Matches(TiffPattern, t);
    AfterWordMisses(t);
    AfterWordMatch(t);
    ScanSkip(m, 15, 0);
    ScanSkip(m, 15, 1);
    ScanSkip(m, 15, 2);
    ScanTake(m, 15, 3, 15);
  }

  /** No match of line 40 starts inside the word "SSN". */
  lemma AfterWordMisses(t: string)
    requires t == "SSN 123-45-6789"
    ensures TiffMatchAt(t, 0) == None && TiffMatchAt(t, 1) == None && TiffMatchAt(t, 2) == None
  {
    assert !WordBoundary(t, 1) && !WordBoundary(t, 2);
    assert Prefix(t, 0) == Some(2);
    assert !IsSep(t[0]) && !IsDigit(t[0]) && !IsSep(t[2]) && !IsDigit(t[2]);
    assert Tail(t, 2) == None && Tail(t, 0) == None;
  }

  /** The match of line 40 at the space runs to the end of the text. */
  lemma AfterWordMatch(t: string)
    requires t == "SSN 123-45-6789"
    ensures TiffMatchAt(t, 3) == Some(15)
  {
    assert WordBoundary(t, 3) && Prefix(t, 3) == None;
    assert IsSep(t[3]) && IsSep(t[7]) && IsSep(t[10]);
    assert DigitsAt(t, 4, 3) && DigitsAt(t, 8, 2) && DigitsAt(t, 11, 4);
    assert Tail(t, 3) == Some(15);
  }

  /** The scan steps over a position where no match starts. */
  lemma ScanSkip(m: nat -> Option<nat>, n: nat, pos: nat)
    requires Matcher(m, n) && pos < n
    requires m(pos).None?
    ensures Scan(m, n, pos) == Scan(m, n, pos + 1)
  {
  }

  /** The scan takes a match and resumes at its end. */
  lemma ScanTake(m: nat -> Option<nat>, n: nat, pos: nat, e: nat)
    requires Matcher(m, n) && pos < n
    requires m(pos) == Some(e)
    ensures Scan(m, n, pos) == [Span(pos, e)] + Scan(m, n, e)
  {
  }
}
