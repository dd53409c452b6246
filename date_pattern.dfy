/**
 The date pattern the column-type inferrer tests a string against:
   ^\d{4}[-/]\d{1,2}[-/]\d{1,2}  |  ^\d{1,2}[-/]\d{1,2}[-/]\d{2,4}
 Both alternatives are anchored at the start only, so any suffix may follow.
 `IsDateLike` is the predicate the model uses; `PatternMatches` is an
 independent reading of the regular expression, atom by atom, and
 `IsDateLikeIffPattern` proves the two agree on every string.
 */
module DatePattern {

  /** `\d` without the unicode flag: an ASCII decimal digit. */
  predicate IsDigit(c: char)
  {
    '0' <= c <= '9'
  }

  /** `[-/]` */
  predicate IsSep(c: char)
  {
    c == '-' || c == '/'
  }

  predicate AllDigits(s: string)
  {
    forall i :: 0 <= i < |s| ==> IsDigit(s[i])
  }

  /** The length of the run of digits at the start of `s`. */
  function LeadingDigits(s: string): (n: nat)
    ensures n <= |s|
    ensures AllDigits(s[..n])
    ensures n < |s| ==> !IsDigit(s[n])
  {
    if s != [] && IsDigit(s[0]) then 1 + LeadingDigits(s[1..]) else 0
  }

  /** A run of `lo` to `hi` leading digits ends exactly where the digits stop
      when a separator must follow it. */
  predicate RunThenSep(s: string, lo: nat, hi: nat)
  {
    var n := LeadingDigits(s);
    lo <= n <= hi && n < |s| && IsSep(s[n])
  }

  /** `^\d{4}[-/]\d{1,2}[-/]\d{1,2}` */
  predicate YearFirst(s: string)
  {
    RunThenSep(s, 4, 4) &&
    var t := s[5..];
    RunThenSep(t, 1, 2) &&
    LeadingDigits(t[LeadingDigits(t) + 1..]) >= 1
  }

  /** `^\d{1,2}[-/]\d{1,2}[-/]\d{2,4}` */
  predicate YearLast(s: string)
  {
    RunThenSep(s, 1, 2) &&
    var t := s[LeadingDigits(s) + 1..];
    RunThenSep(t, 1, 2) &&
    LeadingDigits(t[LeadingDigits(t) + 1..]) >= 2
  }

  /** `datePattern.test(s)` (DataAnalysisScreen.jsx, line 74-75). The
      shortest date-like string is `D-D-DD`, and every one starts with a digit. */
  predicate IsDateLike(s: string): (r: bool)
    ensures r ==> 6 <= |s| && IsDigit(s[0])
  {
    YearFirst(s) || YearLast(s)
  }

  // ---------------------------------------------------------------------
  // Reference reading of the regular expression.

  /** A regular-expression atom: `\d{lo,hi}` or `[-/]`. */
  datatype Atom = Digits(lo: nat, hi: nat) | Sep

  /** Whether the atom sequence `p` matches some prefix of `s`, trying every
      repetition count a backtracking matcher would try. */
  predicate MatchesPrefix(p: seq<Atom>, s: string)
    decreases |p|
  {
    if p == [] then true
    else match p[0]
      case Sep => |s| > 0 && IsSep(s[0]) && MatchesPrefix(p[1..], s[1..])
      case Digits(lo, hi) =>
        exists k :: lo <= k <= hi && k <= |s| && AllDigits(s[..k]) && MatchesPrefix(p[1..], s[k..])
  }

  const YearFirstAtoms: seq<Atom> := [Digits(4, 4), Sep, Digits(1, 2), Sep, Digits(1, 2)]
  const YearLastAtoms: seq<Atom> := [Digits(1, 2), Sep, Digits(1, 2), Sep, Digits(2, 4)]

  predicate PatternMatches(s: string)
  {
    MatchesPrefix(YearFirstAtoms, s) || MatchesPrefix(YearLastAtoms, s)
  }

  // ---------------------------------------------------------------------
  // Equivalence proof.

  /** A prefix of length `k` is all digits exactly when the leading digit run
      is at least `k` long. */
  lemma {:induction false} AllDigitsPrefix(s: string, k: nat)
    requires k <= |s|
    ensures AllDigits(s[..k]) <==> k <= LeadingDigits(s)
  {
    if k > 0 {
      if IsDigit(s[0]) {
        AllDigitsPrefix(s[1..], k - 1);
        assert s[..k][1..] == s[1..][..k - 1];
      } else {
        assert !AllDigits(s[..k]) by { assert s[..k][0] == s[0]; }
      }
    }
  }

  /** The last atom of a pattern: `\d{lo,hi}` with nothing after it. */
  lemma FinalDigits(s: string, lo: nat, hi: nat)
    requires lo <= hi
    ensures MatchesPrefix([Digits(lo, hi)], s) <==> lo <= LeadingDigits(s)
  {
    var p := [Digits(lo, hi)];
    assert p[1..] == [];
    if lo <= LeadingDigits(s) {
      AllDigitsPrefix(s, lo);
      assert lo <= hi && lo <= |s| && AllDigits(s[..lo]) && MatchesPrefix(p[1..], s[lo..]);
    }
    if MatchesPrefix(p, s) {
      var k :| lo <= k <= hi && k <= |s| && AllDigits(s[..k]) && MatchesPrefix(p[1..], s[k..]);
      AllDigitsPrefix(s, k);
    }
  }

  /** Unfolding `MatchesPrefix` one `[-/]` atom. */
  lemma SepStep(rest: seq<Atom>, s: string)
    ensures MatchesPrefix([Sep] + rest, s) <==> |s| > 0 && IsSep(s[0]) && MatchesPrefix(rest, s[1..])
  {
    assert ([Sep] + rest)[1..] == rest;
  }

  /** A digit run followed by a separator is the whole leading digit run. */
  lemma RunStopsAtSep(s: string, k: nat)
    requires k < |s| && AllDigits(s[..k]) && IsSep(s[k])
    ensures k == LeadingDigits(s)
  {
    AllDigitsPrefix(s, k);
  }

  /** `\d{lo,hi}[-/]` followed by `rest`: the digit run must stop at the
      separator, so only one repetition count can succeed. */
  lemma DigitsThenSep(s: string, lo: nat, hi: nat, rest: seq<Atom>)
    ensures MatchesPrefix([Digits(lo, hi), Sep] + rest, s) <==>
            (RunThenSep(s, lo, hi) && MatchesPrefix(rest, s[LeadingDigits(s) + 1..]))
  {
    var p := [Digits(lo, hi), Sep] + rest;
    var q := [Sep] + rest;
    assert p[0] == Digits(lo, hi) && p[1..] == q;
    var n := LeadingDigits(s);
    if RunThenSep(s, lo, hi) && MatchesPrefix(rest, s[n + 1..]) {
      assert s[n..][1..] == s[n + 1..];
      SepStep(rest, s[n..]);
      assert lo <= n <= hi && n <= |s| && AllDigits(s[..n]) && MatchesPrefix(q, s[n..]);
    }
    if MatchesPrefix(p, s) {
      var k :| lo <= k <= hi && k <= |s| && AllDigits(s[..k]) && MatchesPrefix(q, s[k..]);
      SepStep(rest, s[k..]);
      assert s[k..][0] == s[k];
      RunStopsAtSep(s, k);
      assert s[k..][1..] == s[n + 1..];
    }
  }

  lemma YearFirstIff(s: string)
    ensures MatchesPrefix(YearFirstAtoms, s) <==> YearFirst(s)
  {
    var tail := [Digits(1, 2), Sep, Digits(1, 2)];
    assert YearFirstAtoms == [Digits(4, 4), Sep] + tail;
    DigitsThenSep(s, 4, 4, tail);
    if RunThenSep(s, 4, 4) {
      var t := s[5..];
      assert tail == [Digits(1, 2), Sep] + [Digits(1, 2)];
      DigitsThenSep(t, 1, 2, [Digits(1, 2)]);
      if RunThenSep(t, 1, 2) {
        FinalDigits(t[LeadingDigits(t) + 1..], 1, 2);
      }
    }
  }

  lemma YearLastIff(s: string)
    ensures MatchesPrefix(YearLastAtoms, s) <==> YearLast(s)
  {
    var tail := [Digits(1, 2), Sep, Digits(2, 4)];
    assert YearLastAtoms == [Digits(1, 2), Sep] + tail;
    DigitsThenSep(s, 1, 2, tail);
    if RunThenSep(s, 1, 2) {
      var t := s[LeadingDigits(s) + 1..];
      assert tail == [Digits(1, 2), Sep] + [Digits(2, 4)];
      DigitsThenSep(t, 1, 2, [Digits(2, 4)]);
      if RunThenSep(t, 1, 2) {
        FinalDigits(t[LeadingDigits(t) + 1..], 2, 4);
      }
    }
  }

  /** The hand-written predicate accepts exactly the strings the regular
      expression accepts. */
  lemma IsDateLikeIffPattern(s: string)
    ensures IsDateLike(s) <==> PatternMatches(s)
  {
    YearFirstIff(s);
    YearLastIff(s);
  }

  /** Without an end anchor, a matching atom sequence still matches after any
      characters are appended. */
  lemma {:induction false} MatchesPrefixExtend(p: seq<Atom>, s: string, t: string)
    requires MatchesPrefix(p, s)
    ensures MatchesPrefix(p, s + t)
    decreases |p|
  {
    if p != [] {
      match p[0]
      case Sep =>
        assert (s + t)[1..] == s[1..] + t;
        MatchesPrefixExtend(p[1..], s[1..], t);
      case Digits(lo, hi) =>
        var k :| lo <= k <= hi && k <= |s| && AllDigits(s[..k]) && MatchesPrefix(p[1..], s[k..]);
        assert (s + t)[..k] == s[..k];
        assert (s + t)[k..] == s[k..] + t;
        MatchesPrefixExtend(p[1..], s[k..], t);
    }
  }

  /** Trailing characters never stop a date-like string from being date-like. */
  lemma DateLikeExtend(s: string, t: string)
    requires IsDateLike(s)
    ensures IsDateLike(s + t)
  {
    IsDateLikeIffPattern(s);
    IsDateLikeIffPattern(s + t);
    if MatchesPrefix(YearFirstAtoms, s) {
      MatchesPrefixExtend(YearFirstAtoms, s, t);
    } else {
      MatchesPrefixExtend(YearLastAtoms, s, t);
    }
  }

  // ---------------------------------------------------------------------
  // Worked cases, one string per lemma.

  /** An ISO date is date-like. */
  lemma IsoDateExample()
    ensures IsDateLike("2024-01-15")
  {
  }

  /** No end anchor: a time suffix is allowed. */
  lemma IsoDateTimeExample()
    ensures IsDateLike("2024-01-15T00")
  {
    var s := "2024-01-15T00";
    assert LeadingDigits(s[4..]) == 0;
    assert LeadingDigits(s) == 4;
    var t := s[5..];
    assert LeadingDigits(t[2..]) == 0;
    assert LeadingDigits(t) == 2;
    assert LeadingDigits(t[3..]) >= 1;
    assert YearFirst(s);
  }

  /** Single-digit month and day, slash separators. */
  lemma ShortYearFirstExample()
    ensures IsDateLike("2024/1/5")
  {
  }

  /** Year last with two digits. */
  lemma YearLastExample()
    ensures IsDateLike("12/31/99")
  {
  }

  /** Year last needs at least two year digits. */
  lemma OneDigitYearExample()
    ensures !IsDateLike("1/2/3")
  {
  }

  /** A date without separators is not date-like. */
  lemma NoSeparatorExample()
    ensures !IsDateLike("20240115")
  {
  }

  /** Five leading digits match neither alternative. */
  lemma FiveDigitYearExample()
    ensures !IsDateLike("12345-1-1")
  {
    assert LeadingDigits("12345-1-1"[4..]) == 1;
    assert LeadingDigits("12345-1-1") == 5;
  }

}
