/**
 * The two SSN regular expressions, written out as match functions.
 *
 *  main_pdf_re.py line 49:
 *    \b[A-Za-z]{2}(?=T)T          with T = [-\s]?\d{3}[-\s]?\d{2}[-\s]?\d{4}\b
 *  main_tiff_re.py line 40:
 *    \b([A-Za-z]{1}(&?)[a-zA-Z]{1})?(?=T)T
 *
 * `\d`, `\s` and `\w` are read as under `re.ASCII`; Python's default
 * Unicode classes are wider (its `\s` also holds '\x1c'..'\x1f').
 *
 * Two readings of each pattern are given: the greedy one a backtracking
 * engine returns first (`Tail`, `PdfMatchAt`, `TiffMatchAt`), and the set of
 * every end any choice of the optional parts reaches (`TailEnds`, `PdfEnds`,
 * `TiffEnds`). The lemmas show that each set holds at most that one end, so
 * the greedy match is the only match at a position.
 */
module SsnPattern {
  import opened Common

  predicate IsAsciiLetter(c: char) { 'A' <= c <= 'Z' || 'a' <= c <= 'z' }

  /** `\d` */
  predicate IsDigit(c: char) { '0' <= c <= '9' }

  /** `\s` as under `re.ASCII`: space, tab, line feed, vertical tab, form
      feed, carriage return. */
  predicate IsSpace(c: char) { c == ' ' || '\t' <= c <= '\r' }

  /** `[-\s]` */
  predicate IsSep(c: char) { c == '-' || IsSpace(c) }

  /** `\w` */
  predicate IsWordChar(c: char) { IsAsciiLetter(c) || IsDigit(c) || c == '_' }

  /** `\b` at position `i` of `t`. */
  predicate WordBoundary(t: string, i: nat)
    requires i <= |t|
  {
    (0 < i && IsWordChar(t[i - 1])) != (i < |t| && IsWordChar(t[i]))
  }

  /** `\d{n}` at `p`. */
  predicate DigitsAt(t: string, p: nat, n: nat)
  {
    p + n <= |t| && forall k :: p <= k < p + n ==> IsDigit(t[k])
  }

  /** The greedy `[-\s]?` at `p`: it takes the separator when there is one. */
  function OptSep(t: string, p: nat): nat
    requires p <= |t|
  {
    if p < |t| && IsSep(t[p]) then p + 1 else p
  }

  /** T = `[-\s]?\d{3}[-\s]?\d{2}[-\s]?\d{4}\b` at `p`, greedily: the end of
      the match, if any. */
  function Tail(t: string, p: nat): (e: Option<nat>)
    requires p <= |t|
    ensures e.Some? ==> p + 9 <= e.value <= p + 12 && e.value <= |t|
  {
    var a := OptSep(t, p);
    if !DigitsAt(t, a, 3) then None
    else
      var b := OptSep(t, a + 3);
      if !DigitsAt(t, b, 2) then None
      else
        var c := OptSep(t, b + 2);
        if !DigitsAt(t, c, 4) then None
        else if WordBoundary(t, c + 4) then Some(c + 4)
        else None
  }

  /** Pattern of main_pdf_re.py line 49 at `i`: boundary, two letters, the
      lookahead for T, then T itself. */
  function PdfMatchAt(t: string, i: nat): (e: Option<nat>)
    requires i <= |t|
  {
    if WordBoundary(t, i) && i + 2 <= |t| && IsAsciiLetter(t[i]) && IsAsciiLetter(t[i + 1])
       && Tail(t, i + 2).Some?   // (?=T)
    then Tail(t, i + 2)
    else None
  }

  /** The optional group `([A-Za-z]{1}(&?)[a-zA-Z]{1})` at `i` when it is
      taken; the greedy `&?` takes the ampersand when one follows. */
  function Prefix(t: string, i: nat): Option<nat>
    requires i <= |t|
  {
    if i + 1 < |t| && IsAsciiLetter(t[i]) then
      if t[i + 1] == '&' && i + 2 < |t| && IsAsciiLetter(t[i + 2]) then Some(i + 3)
      else if IsAsciiLetter(t[i + 1]) then Some(i + 2)
      else None
    else None
  }

  /** Pattern of main_tiff_re.py line 40 at `i`: the greedy `?` tries the
      group first and falls back to skipping it when T does not follow. */
  function TiffMatchAt(t: string, i: nat): (e: Option<nat>)
    requires i <= |t|
  {
    if !WordBoundary(t, i) then None
    else
      var q := Prefix(t, i);
      if q.Some? && q.value <= |t| && Tail(t, q.value).Some? then Tail(t, q.value)
      else Tail(t, i)
  }

  // ---------------------------------------------------------------------
  // Every end any choice of the optional parts can reach

  function SepChoices(t: string, ps: set<nat>): set<nat>
  {
    ps + (set p | p in ps && p < |t| && IsSep(t[p]) :: (p + 1) as nat)
  }

  function DigitRun(t: string, ps: set<nat>, n: nat): set<nat>
  {
    set p | p in ps && DigitsAt(t, p, n) :: (p + n) as nat
  }

  /** `[-\s]?\d{n}` from every position in `ps`. */
  function Step(t: string, ps: set<nat>, n: nat): set<nat>
  {
    DigitRun(t, SepChoices(t, ps), n)
  }

  function AtBoundary(t: string, ps: set<nat>): set<nat>
  {
    set p | p in ps && p <= |t| && WordBoundary(t, p)
  }

  /** Every end of T at `p`. */
  function TailEnds(t: string, p: nat): set<nat>
  {
    AtBoundary(t, Step(t, Step(t, Step(t, {p}, 3), 2), 4))
  }

  function AsSet(o: Option<nat>): set<nat>
  {
    if o.Some? then {o.value} else {}
  }

  /** Pattern of line 49, every end, with its lookahead. The lookahead
      `(?=T)` is atomic and consumes nothing: it holds at `i + 2` exactly
      when some reading of T matches there, that is, when the set of T's
      ends from `i + 2` is not empty. */
  function PdfEnds(t: string, i: nat): set<nat>
    requires i <= |t|
  {
    if WordBoundary(t, i) && i + 2 <= |t| && IsAsciiLetter(t[i]) && IsAsciiLetter(t[i + 1])
       && TailEnds(t, i + 2) != {}
    then TailEnds(t, i + 2)
    else {}
  }

  /** The pattern commented out at line 46 of main_pdf_re.py: the same
      without the lookahead. */
  function Line46Ends(t: string, i: nat): set<nat>
    requires i <= |t|
  {
    if WordBoundary(t, i) && i + 2 <= |t| && IsAsciiLetter(t[i]) && IsAsciiLetter(t[i + 1])
    then TailEnds(t, i + 2)
    else {}
  }

  /** Every end of T after the optional group of line 40 ends at `q`, when
      the group can end there. */
  function TailEndsAfter(t: string, q: nat, can: bool): set<nat>
  {
    if can && q <= |t| then TailEnds(t, q) else {}
  }

  /** Pattern of line 40, every end over every choice of the group: skipped,
      letter '&' letter, or letter letter. */
  function TiffEnds(t: string, i: nat): set<nat>
    requires i <= |t|
  {
    if WordBoundary(t, i)
    then TailEnds(t, i)
         + TailEndsAfter(t, i + 3, i + 2 < |t| && IsAsciiLetter(t[i]) && t[i + 1] == '&' && IsAsciiLetter(t[i + 2]))
         + TailEndsAfter(t, i + 2, i + 1 < |t| && IsAsciiLetter(t[i]) && IsAsciiLetter(t[i + 1]))
    else {}
  }

  // ---------------------------------------------------------------------
  // The greedy reading is the only one

  /** One greedy `[-\s]?\d{n}` stage after an optional position. */
  function GreedyStep(t: string, o: Option<nat>, n: nat): Option<nat>
  {
    if o.Some? && o.value <= |t| && DigitsAt(t, OptSep(t, o.value), n)
    then Some(OptSep(t, o.value) + n)
    else None
  }

  lemma StepAsSet(t: string, o: Option<nat>, n: nat)
    requires n > 0
    requires o.Some? ==> o.value <= |t|
    ensures Step(t, AsSet(o), n) == AsSet(GreedyStep(t, o, n))
  {
    if o.Some? {
      var p := o.value;
      var choices := SepChoices(t, {p});
      if p < |t| && IsSep(t[p]) {
        assert choices == {p, p + 1};
        assert !DigitsAt(t, p, n) by { assert !IsDigit(t[p]); }
      } else {
        assert choices == {p};
      }
    } else {
      assert SepChoices(t, {}) == {};
    }
  }

  lemma TailByStages(t: string, p: nat)
    requires p <= |t|
    ensures var s := GreedyStep(t, GreedyStep(t, GreedyStep(t, Some(p), 3), 2), 4);
            Tail(t, p) == if s.Some? && s.value <= |t| && WordBoundary(t, s.value) then s else None
  {
  }

  /** The three optional separators of T never compete with the digits that
      follow them, so T has at most one match at `p`: the greedy one. */
  lemma TailUnambiguous(t: string, p: nat)
    requires p <= |t|
    ensures TailEnds(t, p) == AsSet(Tail(t, p))
  {
    var s1 := GreedyStep(t, Some(p), 3);
    var s2 := GreedyStep(t, s1, 2);
    var s3 := GreedyStep(t, s2, 4);
    assert {p} == AsSet(Some(p));
    StepAsSet(t, Some(p), 3);
    StepAsSet(t, s1, 2);
    StepAsSet(t, s2, 4);
    TailByStages(t, p);
    assert TailEnds(t, p) == AtBoundary(t, AsSet(s3));
  }

  /** Line 49 has at most one match at each position, the one `PdfMatchAt`
      returns. */
  lemma PdfUnambiguous(t: string, i: nat)
    requires i <= |t|
    ensures PdfEnds(t, i) == AsSet(PdfMatchAt(t, i))
  {
    if WordBoundary(t, i) && i + 2 <= |t| && IsAsciiLetter(t[i]) && IsAsciiLetter(t[i + 1]) {
      TailUnambiguous(t, i + 2);
      assert TailEnds(t, i + 2) != {} <==> Tail(t, i + 2).Some?;
    }
  }

  /** The lookahead of line 49 repeats what follows it, so line 49 matches
      exactly where the pattern of line 46 does, with the same ends. The
      claim rests on reading the lookahead as "T's set of ends is not
      empty" in `PdfEnds`; given that reading it follows by unfolding. */
  lemma PdfLookaheadRedundant(t: string, i: nat)
    requires i <= |t|
    ensures PdfEnds(t, i) == Line46Ends(t, i)
  {
  }

  /** A match of T starts on a separator or a digit. */
  lemma TailStart(t: string, p: nat)
    requires p <= |t|
    requires Tail(t, p).Some?
    ensures p < |t| && (IsSep(t[p]) || IsDigit(t[p]))
  {
    var a := OptSep(t, p);
    assert DigitsAt(t, a, 3);
    if a == p {
      assert IsDigit(t[a]);
    }
  }

  /** The ends of T after the group of line 40 ends at `q`, when the group
      can end there. */
  function TailAfter(t: string, q: nat, can: bool): set<nat>
  {
    if can && q <= |t| then AsSet(Tail(t, q)) else {}
  }

  lemma TiffEndsByChoice(t: string, i: nat)
    requires i <= |t|
    requires WordBoundary(t, i)
    ensures TiffEnds(t, i) ==
              AsSet(Tail(t, i))
              + TailAfter(t, i + 3, i + 2 < |t| && IsAsciiLetter(t[i]) && t[i + 1] == '&' && IsAsciiLetter(t[i + 2]))
              + TailAfter(t, i + 2, i + 1 < |t| && IsAsciiLetter(t[i]) && IsAsciiLetter(t[i + 1]))
  {
    var amp := i + 2 < |t| && IsAsciiLetter(t[i]) && t[i + 1] == '&' && IsAsciiLetter(t[i + 2]);
    var two := i + 1 < |t| && IsAsciiLetter(t[i]) && IsAsciiLetter(t[i + 1]);
    TailUnambiguous(t, i);
    AfterUnambiguous(t, i + 3, amp);
    AfterUnambiguous(t, i + 2, two);
  }

  lemma AfterUnambiguous(t: string, q: nat, can: bool)
    ensures TailEndsAfter(t, q, can) == TailAfter(t, q, can)
  {
    if can && q <= |t| {
      TailUnambiguous(t, q);
    }
  }

  /** Line 40 has at most one match at each position, the one `TiffMatchAt`
      returns: T cannot follow both a taken and a skipped group, nor both
      group shapes. */
  lemma TiffUnambiguous(t: string, i: nat)
    requires i <= |t|
    ensures TiffEnds(t, i) == AsSet(TiffMatchAt(t, i))
  {
    if WordBoundary(t, i) {
      TiffEndsByChoice(t, i);
      var amp := i + 2 < |t| && IsAsciiLetter(t[i]) && t[i + 1] == '&' && IsAsciiLetter(t[i + 2]);
      var two := i + 1 < |t| && IsAsciiLetter(t[i]) && IsAsciiLetter(t[i + 1]);
      var skipped, withAmp, withTwo := AsSet(Tail(t, i)), TailAfter(t, i + 3, amp), TailAfter(t, i + 2, two);
      if Tail(t, i).Some? {
        TailStart(t, i);
        assert !amp && !two && Prefix(t, i) == None;
        assert withAmp == {} && withTwo == {};
        assert TiffEnds(t, i) == skipped;
      } else if amp {
        assert !two && Prefix(t, i) == Some(i + 3);
        assert skipped == {} && withTwo == {};
        assert TiffEnds(t, i) == withAmp;
      } else if two {
        assert Prefix(t, i) == Some(i + 2);
        assert skipped == {} && withAmp == {};
        assert TiffEnds(t, i) == withTwo;
      } else {
        assert Prefix(t, i) == None;
        assert TiffEnds(t, i) == {};
      }
    }
  }

  // ---------------------------------------------------------------------
  // The shape of a match

  /** The number of `\d` characters in `t[lo..hi]`. */
  function DigitCount(t: string, lo: nat, hi: nat): nat
    requires hi <= |t|
    decreases hi
  {
    if hi <= lo then 0
    else DigitCount(t, lo, hi - 1) + (if IsDigit(t[hi - 1]) then 1 else 0)
  }

  lemma {:induction false} DigitCountSplit(t: string, lo: nat, mid: nat, hi: nat)
    requires lo <= mid <= hi <= |t|
    ensures DigitCount(t, lo, hi) == DigitCount(t, lo, mid) + DigitCount(t, mid, hi)
    decreases hi
  {
    if mid < hi {
      DigitCountSplit(t, lo, mid, hi - 1);
    }
  }

  lemma {:induction false} DigitCountRun(t: string, p: nat, n: nat)
    requires DigitsAt(t, p, n)
    ensures DigitCount(t, p, p + n) == n
    decreases n
  {
    if n > 0 {
      DigitCountRun(t, p, n - 1);
    }
  }

  lemma {:induction false} DigitCountNone(t: string, lo: nat, hi: nat)
    requires lo <= hi <= |t|
    requires forall k :: lo <= k < hi ==> !IsDigit(t[k])
    ensures DigitCount(t, lo, hi) == 0
    decreases hi
  {
    if lo < hi {
      DigitCountNone(t, lo, hi - 1);
    }
  }

  /** A match of T holds exactly nine digits, and the character after it,
      if any, is not a word character. */
  lemma TailShape(t: string, p: nat)
    requires p <= |t|
    requires Tail(t, p).Some?
    ensures var e := Tail(t, p).value;
            DigitCount(t, p, e) == 9 && (e == |t| || !IsWordChar(t[e]))
  {
    var a := OptSep(t, p);
    var b := OptSep(t, a + 3);
    var c := OptSep(t, b + 2);
    var e := c + 4;
    SepThenDigits(t, p, 3);
    SepThenDigits(t, a + 3, 2);
    SepThenDigits(t, b + 2, 4);
    DigitCountSplit(t, p, a + 3, e);
    DigitCountSplit(t, a + 3, b + 2, e);
    assert IsWordChar(t[e - 1]);
  }

  /** One stage `[-\s]?\d{n}` holds exactly `n` digits. */
  lemma SepThenDigits(t: string, p: nat, n: nat)
    requires p <= |t|
    requires DigitsAt(t, OptSep(t, p), n)
    ensures DigitCount(t, p, OptSep(t, p) + n) == n
  {
    var a := OptSep(t, p);
    DigitCountSplit(t, p, a, a + n);
    DigitCountRun(t, a, n);
    if a == p + 1 {
      assert !IsDigit(t[p]);
      assert DigitCount(t, p, a) == 0;
    }
  }

  /** Every match of line 49 is two ASCII letters that begin a word,
      followed by nine digits (with up to three separators) that end one:
      11 to 14 characters. */
  lemma PdfMatchShape(t: string, i: nat)
    requires i <= |t|
    requires PdfMatchAt(t, i).Some?
    ensures var e := PdfMatchAt(t, i).value;
            && i + 2 <= |t| && IsAsciiLetter(t[i]) && IsAsciiLetter(t[i + 1])
            && (i == 0 || !IsWordChar(t[i - 1]))
            && 11 <= e - i <= 14
            && DigitCount(t, i, e) == 9
            && (e == |t| || !IsWordChar(t[e]))
  {
    var e := PdfMatchAt(t, i).value;
    TailShape(t, i + 2);
    DigitCountSplit(t, i, i + 2, e);
    DigitCountNone(t, i, i + 2);
  }

  /** Every match of line 40 holds nine digits, is 9 to 15 characters long,
      begins where a word does not continue from the left and ends where no
      word continues to the right. */
  lemma TiffMatchShape(t: string, i: nat)
    requires i <= |t|
    requires TiffMatchAt(t, i).Some?
    ensures var e := TiffMatchAt(t, i).value;
            && (i == 0 || !IsWordChar(t[i - 1]) || !IsWordChar(t[i]))
            && 9 <= e - i <= 15
            && DigitCount(t, i, e) == 9
            && (e == |t| || !IsWordChar(t[e]))
  {
    var e := TiffMatchAt(t, i).value;
    var q := Prefix(t, i);
    if q.Some? && q.value <= |t| && Tail(t, q.value).Some? {
      TailShape(t, q.value);
      DigitCountSplit(t, i, q.value, e);
      DigitCountNone(t, i, q.value);
    } else {
      TailShape(t, i);
    }
  }

  /** A match of line 40 that starts right after a word character starts on
      the separator in front of the digits, not on a digit. */
  lemma TiffMatchAfterWord(t: string, i: nat)
    requires 0 < i <= |t|
    requires IsWordChar(t[i - 1])
    requires TiffMatchAt(t, i).Some?
    ensures i < |t| && IsSep(t[i])
  {
    assert !(i < |t| && IsWordChar(t[i]));
    TailStart(t, i);
  }
}
