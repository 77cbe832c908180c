// Fraction.java's text forms: `toString` in mixed ("W N/D") or plain ("N/D")
// display mode, and `decode`, which matches the pattern
//     ^\s*(?:(-?\d+)\s+)?\s*(?:(-?\d+)\s*/\s*(\d+)\s*)\s*$
// and otherwise falls back to `Integer.parseInt` of the trimmed text.
module FractionText {
  import opened Exceptions
  import opened JavaInts
  import opened Fractions

  // ---------------------------------------------------------------------------
  // characters

  /** The regular expression class `\s`: space, tab, newline, vertical tab,
      form feed, carriage return. */
  predicate IsSpace(c: char)
  {
    c == ' ' || '\t' <= c <= '\r'
  }

  /** The regular expression class `\d` (ASCII digits). */
  predicate IsDigit(c: char)
  {
    '0' <= c <= '9'
  }

  predicate AllDigits(s: string)
  {
    forall i :: 0 <= i < |s| ==> IsDigit(s[i])
  }

  /** The characters `String.trim` removes: every character up to U+0020. */
  predicate IsTrimmed(c: char)
  {
    c <= ' '
  }

  /** Line terminators outside `\s` before which `$` also matches at the end. */
  predicate IsOtherLineTerminator(c: char)
  {
    c == '\U{0085}' || c == '\U{2028}' || c == '\U{2029}'
  }

  // ---------------------------------------------------------------------------
  // Integer.toString and the value of a digit string

  function DigitChar(d: nat): (c: char)
    requires d < 10
    ensures IsDigit(c) && c as int - '0' as int == d
  {
    ('0' as int + d) as char
  }

  /** The decimal digits of `n`, without leading zeros. */
  function NatToString(n: nat): (s: string)
    ensures |s| >= 1 && AllDigits(s)
    decreases n
  {
    if n < 10 then [DigitChar(n)] else NatToString(n / 10) + [DigitChar(n % 10)]
  }

  /** `Integer.toString`: a minus sign for negative numbers, then the digits. */
  function IntToString(n: int): string
  {
    if n < 0 then "-" + NatToString(-n) else NatToString(n)
  }

  /** The number a string of decimal digits spells. */
  function DigitsValue(s: string): nat
    requires AllDigits(s)
    decreases |s|
  {
    if s == [] then 0 else DigitsValue(s[..|s| - 1]) * 10 + (s[|s| - 1] as int - '0' as int)
  }

  /** Reading back the digits of `n` gives `n`. */
  lemma {:induction false} NatToStringValue(n: nat)
    ensures DigitsValue(NatToString(n)) == n
    decreases n
  {
    if n >= 10 {
      var s := NatToString(n);
      assert s[..|s| - 1] == NatToString(n / 10);
      NatToStringValue(n / 10);
    }
  }

  lemma IntToStringShape(n: int)
    ensures |IntToString(n)| >= 1
    ensures n < 0 ==> IntToString(n) == "-" + NatToString(-n)
    ensures n >= 0 ==> IntToString(n) == NatToString(n)
    ensures IntToString(n)[0] == '-' || IsDigit(IntToString(n)[0])
    ensures IsDigit(IntToString(n)[|IntToString(n)| - 1])
    ensures forall i :: 0 <= i < |IntToString(n)| ==> IntToString(n)[i] == '-' || IsDigit(IntToString(n)[i])
  {
  }

  // ---------------------------------------------------------------------------
  // toString

  /** `toString`, with the static display flag `sDisplayMixedNumbers` as the
      parameter `mixed`. */
  function ToText(f: Fraction, mixed: bool): (r: string)
    ensures ('/' in r) <==> f.den != 1
  {
    if f.den == 1 then
      NoSlashInInt(f.num);
      IntToString(f.num)
    else
      var wholeNum := Quot(f.num, f.den);
      var nominator := Rem(f.num, f.den);
      ProperRemainder(f);
      if nominator != 0 then
        if mixed then
          (if wholeNum == 0 then "" else IntToString(wholeNum) + " ")
          + IntToString(if wholeNum < 0 then Abs(nominator) else nominator) + "/" + IntToString(f.den)
        else
          IntToString(f.num) + "/" + IntToString(f.den)
      else
        IntToString(wholeNum)
  }

  lemma NoSlashInInt(n: int)
    ensures '/' !in IntToString(n)
  {
    IntToStringShape(n);
  }

  // ---------------------------------------------------------------------------
  // the pattern, matched by hand

  /** The three capture groups of a successful match; the first is optional. */
  datatype Groups = Groups(whole: Option<int>, nominator: int, denominator: nat)

  /** The end of the run of `\s` starting at `i`. */
  function SkipSpaces(s: string, i: nat): (j: nat)
    requires i <= |s|
    ensures i <= j <= |s|
    ensures forall k :: i <= k < j ==> IsSpace(s[k])
    ensures j == |s| || !IsSpace(s[j])
    decreases |s| - i
  {
    if i < |s| && IsSpace(s[i]) then SkipSpaces(s, i + 1) else i
  }

  /** The end of the run of `\d` starting at `i`. */
  function SkipDigits(s: string, i: nat): (j: nat)
    requires i <= |s|
    ensures i <= j <= |s|
    ensures AllDigits(s[i..j])
    ensures j == |s| || !IsDigit(s[j])
    decreases |s| - i
  {
    if i < |s| && IsDigit(s[i]) then
      var j := SkipDigits(s, i + 1);
      assert s[i..j] == [s[i]] + s[i + 1..j];
      j
    else i
  }

  /** `-?\d+` at `i`: its value and where it ends. */
  function ScanInt(s: string, i: nat): (r: Option<(int, nat)>)
    requires i <= |s|
    ensures r.Some? ==> i < r.value.1 <= |s|
  {
    var j := if i < |s| && s[i] == '-' then i + 1 else i;
    var k := SkipDigits(s, j);
    if k == j then None
    else if j == i + 1 then Some((-(DigitsValue(s[j..k]) as int), k))
    else Some((DigitsValue(s[j..k]), k))
  }

  /** `$`: the end of the input, or just before a final line terminator. */
  predicate AtEnd(s: string, i: nat)
  {
    i == |s| || (i + 1 == |s| && IsOtherLineTerminator(s[i]))
  }

  /** What follows the `/`: `\s*(\d+)\s*\s*$`. */
  function MatchDenominator(s: string, i: nat, whole: Option<int>, nominator: int): (r: Option<Groups>)
    requires i <= |s|
    ensures r.Some? ==> r.value.whole == whole && r.value.nominator == nominator
  {
    var j := SkipSpaces(s, i);
    var k := SkipDigits(s, j);
    if k == j then None
    else if AtEnd(s, SkipSpaces(s, k)) then Some(Groups(whole, nominator, DigitsValue(s[j..k])))
    else None
  }

  /** The whole pattern. Each `-?\d+` and `\d+` is followed by `\s`, `/` or the
      end, so its digit run is maximal; a `/` right after the first number means
      the optional whole-number group is absent, anything else means it is present. */
  function MatchPattern(s: string): (r: Option<Groups>)
    ensures r.Some? ==> '/' in s
  {
    match ScanInt(s, SkipSpaces(s, 0))
    case None => None
    case Some((v1, i1)) => MatchAfterFirst(s, v1, i1)
  }

  /** After the first number, which ends at `i1`: `/` (it was the nominator),
      or at least one space and then the nominator. */
  function MatchAfterFirst(s: string, v1: int, i1: nat): (r: Option<Groups>)
    requires i1 <= |s|
    ensures r.Some? ==> '/' in s
    ensures r.Some? ==> (if r.value.whole.Some? then r.value.whole.value else r.value.nominator) == v1
  {
    var i2 := SkipSpaces(s, i1);
    if i2 < |s| && s[i2] == '/' then MatchDenominator(s, i2 + 1, None, v1)
    else if i2 == i1 then None
    else MatchNominator(s, v1, i2)
  }

  /** The nominator at `i2`, after the whole number `whole`, then spaces and the slash. */
  function MatchNominator(s: string, whole: int, i2: nat): (r: Option<Groups>)
    requires i2 <= |s|
    ensures r.Some? ==> '/' in s && r.value.whole == Some(whole)
  {
    match ScanInt(s, i2)
    case None => None
    case Some((v2, i3)) =>
      var i4 := SkipSpaces(s, i3);
      if i4 < |s| && s[i4] == '/' then MatchDenominator(s, i4 + 1, Some(whole), v2) else None
  }

  // ---------------------------------------------------------------------------
  // the fallback: String.trim and Integer.parseInt

  function TrimStart(s: string): string
  {
    if |s| > 0 && IsTrimmed(s[0]) then TrimStart(s[1..]) else s
  }

  function TrimEnd(s: string): string
  {
    if |s| > 0 && IsTrimmed(s[|s| - 1]) then TrimEnd(s[..|s| - 1]) else s
  }

  /** `String.trim`. */
  function Trim(s: string): string
  {
    TrimEnd(TrimStart(s))
  }

  /** `Integer.parseInt(s, 10)`: an optional minus sign, then one or more digits. */
  function ParseInt(s: string): (r: Result<int>)
    ensures r.Err? ==> r.error == NumberFormatException
  {
    if |s| == 0 then Err(NumberFormatException)
    else
      var negative := s[0] == '-';
      var digits := if negative then s[1..] else s;
      if |digits| == 0 || !AllDigits(digits) then Err(NumberFormatException)
      else if negative then Ok(-(DigitsValue(digits) as int))
      else Ok(DigitsValue(digits))
  }

  // ---------------------------------------------------------------------------
  // decode

  /** What `decode` returns for `s`: the groups of a match go to
      `new Fraction(wholeNum, nominator, denominator)` (a zero denominator is a
      format error); without a match, the trimmed text must be an integer. */
  function Decoded(s: string): (r: Result<Fraction>)
    ensures r.Err? ==> r.error == NumberFormatException || r.error == IllegalArgumentException
  {
    match MatchPattern(s)
    case Some(g) =>
      if g.denominator == 0 then Err(NumberFormatException)
      else Construct(if g.whole.Some? then g.whole.value else 0, g.nominator, g.denominator)
    case None =>
      var t := Trim(s);
      if |t| == 0 then Err(NumberFormatException)
      else
        match ParseInt(t)
        case Err(e) => Err(e)
        case Ok(w) => Construct(w, 0, 1)
  }

  /** `decode`: the local whole number, nominator and denominator start at
      0, 0 and 1 and are overwritten from the match, or from the fallback. */
  method Decode(s: string) returns (r: Result<Fraction>)
    ensures r == Decoded(s)
  {
    var wholeNum, nominator, denominator := 0, 0, 1;
    var matcher := MatchPattern(s);
    if matcher.Some? {
      if matcher.value.whole.Some? {
        wholeNum := matcher.value.whole.value;
      }
      nominator := matcher.value.nominator;
      denominator := matcher.value.denominator;
      if denominator == 0 {
        return Err(NumberFormatException);
      }
    } else {
      var trimmed := Trim(s);
      if |trimmed| == 0 {
        return Err(NumberFormatException);
      }
      var parsed := ParseInt(trimmed);
      if parsed.Err? {
        return Err(parsed.error);
      }
      wholeNum := parsed.value;
    }
    r := Construct(wholeNum, nominator, denominator);
  }

  // ---------------------------------------------------------------------------
  // lemmas: scanning the text that toString produces

  lemma SkipSpacesTo(s: string, i: nat, j: nat)
    requires i <= j <= |s|
    requires forall k :: i <= k < j ==> IsSpace(s[k])
    requires j == |s| || !IsSpace(s[j])
    ensures SkipSpaces(s, i) == j
  {
  }

  lemma SkipDigitsTo(s: string, i: nat, j: nat)
    requires i <= j <= |s|
    requires AllDigits(s[i..j])
    requires j == |s| || !IsDigit(s[j])
    ensures SkipDigits(s, i) == j
  {
  }

  /** The text of an integer, followed by something other than a digit, scans
      back to that integer. */
  lemma ScanIntOf(s: string, i: nat, n: int)
    requires i + |IntToString(n)| <= |s|
    requires s[i..i + |IntToString(n)|] == IntToString(n)
    requires i + |IntToString(n)| == |s| || !IsDigit(s[i + |IntToString(n)|])
    ensures ScanInt(s, i) == Some((n, i + |IntToString(n)|))
  {
    if n < 0 {
      ScanNegativeOf(s, i, n);
    } else {
      ScanNonNegativeOf(s, i, n);
    }
  }

  lemma ScanNegativeOf(s: string, i: nat, n: int)
    requires n < 0
    requires i + |IntToString(n)| <= |s|
    requires s[i..i + |IntToString(n)|] == IntToString(n)
    requires i + |IntToString(n)| == |s| || !IsDigit(s[i + |IntToString(n)|])
    ensures ScanInt(s, i) == Some((n, i + |IntToString(n)|))
  {
    var t := IntToString(n);
    var e := i + |t|;
    var d := NatToString(-n);
    assert t == "-" + d;
    assert s[i] == t[0] == '-';
    assert s[i + 1..e] == d by {
      assert s[i + 1..e] == s[i..e][1..];
    }
    SkipDigitsTo(s, i + 1, e);
    NatToStringValue(-n);
  }

  lemma ScanNonNegativeOf(s: string, i: nat, n: int)
    requires n >= 0
    requires i + |IntToString(n)| <= |s|
    requires s[i..i + |IntToString(n)|] == IntToString(n)
    requires i + |IntToString(n)| == |s| || !IsDigit(s[i + |IntToString(n)|])
    ensures ScanInt(s, i) == Some((n, i + |IntToString(n)|))
  {
    var t := IntToString(n);
    var e := i + |t|;
    assert t == NatToString(n);
    assert s[i] == t[0];
    assert IsDigit(s[i]);
    SkipDigitsTo(s, i, e);
    NatToStringValue(n);
  }

  /** A denominator's digits at the end of the text complete the match. */
  lemma MatchDenominatorOf(s: string, i: nat, whole: Option<int>, nominator: int, d: nat)
    requires i <= |s| && s[i..] == NatToString(d)
    ensures MatchDenominator(s, i, whole, nominator) == Some(Groups(whole, nominator, d))
  {
    var t := NatToString(d);
    assert s[i] == t[0];
    SkipSpacesTo(s, i, i);
    assert s[i..|s|] == t;
    SkipDigitsTo(s, i, |s|);
    SkipSpacesTo(s, |s|, |s|);
    NatToStringValue(d);
  }

  /** "N/D" matches with groups (absent, N, D). */
  lemma MatchesRatio(n: int, d: nat)
    ensures MatchPattern(IntToString(n) + "/" + NatToString(d)) == Some(Groups(None, n, d))
  {
    var a, b := IntToString(n), NatToString(d);
    var s := a + "/" + b;
    assert s[0..|a|] == a;
    assert s[|a|] == '/';
    assert s[|a| + 1..] == b;
    MatchesRatioAt(s, n, d);
  }

  lemma MatchesRatioAt(s: string, n: int, d: nat)
    requires |IntToString(n)| < |s|
    requires s[0..|IntToString(n)|] == IntToString(n)
    requires s[|IntToString(n)|] == '/'
    requires s[|IntToString(n)| + 1..] == NatToString(d)
    ensures MatchPattern(s) == Some(Groups(None, n, d))
  {
    var i1 := |IntToString(n)|;
    FirstNumberOf(s, n);
    MatchDenominatorOf(s, i1 + 1, None, n, d);
    RatioChain(s, n, d, i1);
  }

  /** `$` also matches just before a final U+0085, U+2028 or U+2029: "N/D"
      followed by one of them matches with groups (none, N, D). */
  lemma MatchesRatioBeforeTerminator(n: int, d: nat, c: char)
    requires IsOtherLineTerminator(c)
    ensures MatchPattern(IntToString(n) + "/" + NatToString(d) + [c]) == Some(Groups(None, n, d))
  {
    var a, b := IntToString(n), NatToString(d);
    var s := a + "/" + b + [c];
    TerminatedSlices(s, a, b, c);
    MatchesRatioBeforeAt(s, n, d, c);
  }

  lemma TerminatedSlices(s: string, a: string, b: string, c: char)
    requires s == a + "/" + b + [c]
    ensures |a| < |s| && s[0..|a|] == a && s[|a|] == '/' && s[|a| + 1..] == b + [c]
  {
    assert s[0..|a|] == a;
    assert s[|a| + 1..] == b + [c];
  }

  lemma MatchesRatioBeforeAt(s: string, n: int, d: nat, c: char)
    requires IsOtherLineTerminator(c)
    requires |IntToString(n)| < |s|
    requires s[0..|IntToString(n)|] == IntToString(n)
    requires s[|IntToString(n)|] == '/'
    requires s[|IntToString(n)| + 1..] == NatToString(d) + [c]
    ensures MatchPattern(s) == Some(Groups(None, n, d))
  {
    var i1 := |IntToString(n)|;
    FirstNumberOf(s, n);
    MatchDenominatorBefore(s, i1 + 1, None, n, d, c);
    RatioChain(s, n, d, i1);
  }

  /** The digits of `d` and then a final line terminator other than `\n` and
      `\r` match as the denominator `d`. */
  lemma MatchDenominatorBefore(s: string, i: nat, whole: Option<int>, nominator: int, d: nat, c: char)
    requires IsOtherLineTerminator(c)
    requires i <= |s| && s[i..] == NatToString(d) + [c]
    ensures MatchDenominator(s, i, whole, nominator) == Some(Groups(whole, nominator, d))
  {
    var t := NatToString(d);
    var k := |s| - 1;
    assert s[i] == t[0] && s[k] == c;
    SkipSpacesTo(s, i, i);
    assert s[i..k] == t;
    SkipDigitsTo(s, i, k);
    SkipSpacesTo(s, k, k);
    NatToStringValue(d);
  }

  /** "W N/D" matches with groups (W, N, D). */
  lemma MatchesMixed(w: int, n: int, d: nat)
    ensures MatchPattern(IntToString(w) + " " + IntToString(n) + "/" + NatToString(d))
         == Some(Groups(Some(w), n, d))
  {
    var x, a, b := IntToString(w), IntToString(n), NatToString(d);
    var i1, i3 := |x|, |x| + 1 + |a|;
    MixedSlices(x, a, b, i1, i3);
    MatchesMixedAt(x + " " + a + "/" + b, w, n, d, i1, i3);
  }

  /** `s` is the text of `w`, a blank, the text of `n`, a slash and the text
      of `d`; the blank is at `i1` and the slash at `i3`. */
  predicate MixedLayout(s: string, w: int, n: int, d: nat, i1: nat, i3: nat)
  {
    && i1 == |IntToString(w)| && i3 == i1 + 1 + |IntToString(n)| && i3 < |s|
    && s[0..i1] == IntToString(w) && s[i1] == ' ' && s[i1 + 1..i3] == IntToString(n)
    && s[i3] == '/' && s[i3 + 1..] == NatToString(d)
  }

  lemma MixedSlices(x: string, a: string, b: string, i1: nat, i3: nat)
    requires i1 == |x| && i3 == i1 + 1 + |a|
    ensures var s := x + " " + a + "/" + b;
      && i3 < |s| && s[0..i1] == x && s[i1] == ' ' && s[i1 + 1..i3] == a
      && s[i3] == '/' && s[i3 + 1..] == b
  {
    var s := x + " " + a + "/" + b;
    assert s[0..i1] == x;
    assert s[i1 + 1..i3] == a;
    assert s[i3 + 1..] == b;
  }

  lemma MatchesMixedAt(s: string, w: int, n: int, d: nat, i1: nat, i3: nat)
    requires MixedLayout(s, w, n, d, i1, i3)
    ensures MatchPattern(s) == Some(Groups(Some(w), n, d))
  {
    MixedWhole(s, w, n, d, i1, i3);
    MixedNominator(s, w, n, d, i1, i3);
    MixedDenominator(s, w, n, d, i1, i3);
    MixedChain(s, w, n, d, i1, i3);
  }

  /** The whole number of "W N/D" scans as `w`. */
  lemma MixedWhole(s: string, w: int, n: int, d: nat, i1: nat, i3: nat)
    requires MixedLayout(s, w, n, d, i1, i3)
    ensures ScanInt(s, SkipSpaces(s, 0)) == Some((w, i1))
  {
    NumberAt(s, 0, w, i1);
    SkipSpacesTo(s, 0, 0);
  }

  /** The nominator of "W N/D" scans as `n`. */
  lemma MixedNominator(s: string, w: int, n: int, d: nat, i1: nat, i3: nat)
    requires MixedLayout(s, w, n, d, i1, i3)
    ensures ScanInt(s, i1 + 1) == Some((n, i3)) && !IsSpace(s[i1 + 1]) && s[i1 + 1] != '/'
  {
    NumberAt(s, i1 + 1, n, i3);
  }

  /** The denominator of "W N/D" matches as `d`. */
  lemma MixedDenominator(s: string, w: int, n: int, d: nat, i1: nat, i3: nat)
    requires MixedLayout(s, w, n, d, i1, i3)
    ensures MatchDenominator(s, i3 + 1, Some(w), n) == Some(Groups(Some(w), n, d))
  {
    MatchDenominatorOf(s, i3 + 1, Some(w), n, d);
  }

  /** The steps of the match of "W N/D", given what each part scans as. */
  lemma MixedChain(s: string, w: int, n: int, d: nat, i1: nat, i3: nat)
    requires ScanInt(s, SkipSpaces(s, 0)) == Some((w, i1))
    requires i1 + 1 < |s| && s[i1] == ' ' && !IsSpace(s[i1 + 1]) && s[i1 + 1] != '/'
    requires ScanInt(s, i1 + 1) == Some((n, i3))
    requires i3 < |s| && s[i3] == '/'
    requires MatchDenominator(s, i3 + 1, Some(w), n) == Some(Groups(Some(w), n, d))
    ensures MatchPattern(s) == Some(Groups(Some(w), n, d))
  {
    MixedHead(s, w, i1);
    NominatorStep(s, w, n, i1, i3);
  }

  /** The match of "W N/D" up to the nominator, given how W scans and what
      follows it. */
  lemma MixedHead(s: string, w: int, i1: nat)
    requires ScanInt(s, SkipSpaces(s, 0)) == Some((w, i1))
    requires i1 + 1 < |s| && s[i1] == ' ' && !IsSpace(s[i1 + 1]) && s[i1 + 1] != '/'
    ensures MatchPattern(s) == MatchNominator(s, w, i1 + 1)
  {
    PatternAfterFirst(s, w, i1);
    SpaceStep(s, w, i1);
  }

  /** Text that starts with the digits of `w`, followed by something other than
      a digit, scans `w` as its first number. */
  lemma FirstNumberOf(s: string, w: int)
    requires |IntToString(w)| < |s|
    requires s[0..|IntToString(w)|] == IntToString(w)
    requires !IsDigit(s[|IntToString(w)|])
    ensures ScanInt(s, SkipSpaces(s, 0)) == Some((w, |IntToString(w)|))
  {
    NumberAt(s, 0, w, |IntToString(w)|);
    SkipSpacesTo(s, 0, 0);
  }

  /** The digits of `n` at `i`, followed by something other than a digit, scan
      as `n`; they start with neither a blank nor a slash. */
  lemma NumberAt(s: string, i: nat, n: int, j: nat)
    requires j == i + |IntToString(n)| && j < |s|
    requires s[i..j] == IntToString(n) && !IsDigit(s[j])
    ensures ScanInt(s, i) == Some((n, j))
    ensures !IsSpace(s[i]) && s[i] != '/'
  {
    IntToStringStart(n);
    assert s[i] == s[i..j][0];
    ScanIntOf(s, i, n);
  }

  /** The steps of the match of "N/D", given what each part scans as. */
  lemma RatioChain(s: string, n: int, d: nat, i1: nat)
    requires ScanInt(s, SkipSpaces(s, 0)) == Some((n, i1))
    requires i1 < |s| && s[i1] == '/'
    requires MatchDenominator(s, i1 + 1, None, n) == Some(Groups(None, n, d))
    ensures MatchPattern(s) == Some(Groups(None, n, d))
  {
    PatternAfterFirst(s, n, i1);
    SlashStep(s, n, i1);
  }

  /** A slash right after the first number: the whole-number group is absent. */
  lemma SlashStep(s: string, n: int, i1: nat)
    requires i1 < |s| && s[i1] == '/'
    ensures MatchAfterFirst(s, n, i1) == MatchDenominator(s, i1 + 1, None, n)
  {
    SkipSpacesTo(s, i1, i1);
  }

  /** Once the first number scans as `w` ending at `i1`, the rest of the match
      is `MatchAfterFirst`. */
  lemma PatternAfterFirst(s: string, w: int, i1: nat)
    requires ScanInt(s, SkipSpaces(s, 0)) == Some((w, i1))
    ensures MatchPattern(s) == MatchAfterFirst(s, w, i1)
  {
  }

  /** One blank after the first number, then neither a blank nor a slash: the
      first number was the whole number. */
  lemma SpaceStep(s: string, w: int, i1: nat)
    requires i1 + 1 < |s| && s[i1] == ' ' && !IsSpace(s[i1 + 1]) && s[i1 + 1] != '/'
    ensures MatchAfterFirst(s, w, i1) == MatchNominator(s, w, i1 + 1)
  {
    SkipSpacesTo(s, i1, i1 + 1);
  }

  /** The nominator scans as `n` ending at `i3`, right before the slash. */
  lemma NominatorStep(s: string, w: int, n: int, i1: nat, i3: nat)
    requires i1 + 1 <= |s| && ScanInt(s, i1 + 1) == Some((n, i3))
    requires i3 < |s| && s[i3] == '/'
    ensures MatchNominator(s, w, i1 + 1) == MatchDenominator(s, i3 + 1, Some(w), n)
  {
    SkipSpacesTo(s, i3, i3);
  }

  /** The text of an integer starts with neither a blank nor a slash. */
  lemma IntToStringStart(n: int)
    ensures |IntToString(n)| >= 1
    ensures !IsSpace(IntToString(n)[0]) && IntToString(n)[0] != '/'
  {
    IntToStringShape(n);
  }

  /** The text of an integer has no `/`, so it does not match the pattern. */
  lemma NoSlashNoMatch(s: string)
    requires forall i :: 0 <= i < |s| ==> s[i] != '/'
    ensures MatchPattern(s) == None
  {
    match ScanInt(s, SkipSpaces(s, 0))
    case None =>
    case Some((v1, i1)) =>
      var i2 := SkipSpaces(s, i1);
      if i2 != i1 {
        match ScanInt(s, i2)
        case None =>
        case Some((v2, i3)) =>
      }
  }

  lemma TrimOfNoOuterBlank(s: string)
    requires |s| > 0 && !IsTrimmed(s[0]) && !IsTrimmed(s[|s| - 1])
    ensures Trim(s) == s
  {
  }

  lemma {:induction false} TrimOfBlank(s: string)
    requires forall i :: 0 <= i < |s| ==> IsTrimmed(s[i])
    ensures Trim(s) == []
    decreases |s|
  {
    if |s| > 0 {
      TrimOfBlank(s[1..]);
    }
  }

  lemma ParseIntOf(n: int)
    ensures ParseInt(IntToString(n)) == Ok(n)
  {
    IntToStringShape(n);
    if n < 0 {
      assert IntToString(n)[1..] == NatToString(-n);
      NatToStringValue(-n);
    } else {
      NatToStringValue(n);
    }
  }

  // ---------------------------------------------------------------------------
  // lemmas: what decode accepts

  /** Empty or blank input is a format error. */
  lemma DecodeBlank(s: string)
    requires forall i :: 0 <= i < |s| ==> IsTrimmed(s[i])
    ensures Decoded(s) == Err(NumberFormatException)
  {
    NoSlashNoMatch(s);
    TrimOfBlank(s);
  }

  /** A bare integer decodes to that whole number. */
  lemma DecodeWhole(w: int)
    ensures Decoded(IntToString(w)) == Ok(FromWhole(w))
  {
    var s := IntToString(w);
    IntToStringShape(w);
    NoSlashNoMatch(s);
    TrimOfNoOuterBlank(s);
    ParseIntOf(w);
    CanonicalForm(Construct(w, 0, 1).value, FromWhole(w));
  }

  /** "N/D" decodes to `new Fraction(N, D)`; "N/0" is a format error. */
  lemma DecodeRatio(n: int, d: nat)
    ensures d == 0 ==> Decoded(IntToString(n) + "/" + NatToString(d)) == Err(NumberFormatException)
    ensures d > 0 ==> Decoded(IntToString(n) + "/" + NatToString(d)) == FromRatio(n, d)
  {
    MatchesRatio(n, d);
  }

  /** "W N/D" decodes to `new Fraction(W, N, D)`; "W N/0" is a format error. */
  lemma DecodeMixed(w: int, n: int, d: nat)
    ensures d == 0 ==> Decoded(IntToString(w) + " " + IntToString(n) + "/" + NatToString(d)) == Err(NumberFormatException)
    ensures d > 0 ==> Decoded(IntToString(w) + " " + IntToString(n) + "/" + NatToString(d)) == Construct(w, n, d)
  {
    MatchesMixed(w, n, d);
  }

  // ---------------------------------------------------------------------------
  // the round trip

  /** A fraction in lowest terms with a denominator above one is not whole. */
  lemma ProperRemainder(f: Fraction)
    requires f.den > 1
    ensures Rem(f.num, f.den) != 0
  {
    if Rem(f.num, f.den) == 0 {
      if f.num >= 0 {
        QuotRemOfNonNegative(f.num, f.den);
      } else {
        QuotRemOfNegative(f.num, f.den);
      }
      assert Abs(f.num) % f.den == 0;
      assert FindGcd(Abs(f.num), f.den) == FindGcd(f.den, 0);
    }
  }

  /** `decode(toString())` gives back the same fraction, in both display modes. */
  lemma DecodeToText(f: Fraction, mixed: bool)
    ensures Decoded(ToText(f, mixed)) == Ok(f)
  {
    if f.den == 1 {
      DecodeWhole(f.num);
      CanonicalForm(FromWhole(f.num), f);
    } else if !mixed || Quot(f.num, f.den) == 0 {
      DecodeToTextRatio(f, mixed);
    } else {
      DecodeToTextMixed(f);
    }
  }

  /** Plain display, or a mixed number without whole part: "N/D". */
  lemma DecodeToTextRatio(f: Fraction, mixed: bool)
    requires f.den > 1 && (!mixed || Quot(f.num, f.den) == 0)
    ensures Decoded(ToText(f, mixed)) == Ok(f)
  {
    RatioText(f, mixed);
    DecodeRatio(f.num, f.den);
    CanonicalForm(FromRatio(f.num, f.den).value, f);
  }

  lemma RatioText(f: Fraction, mixed: bool)
    requires f.den > 1 && (!mixed || Quot(f.num, f.den) == 0)
    ensures ToText(f, mixed) == IntToString(f.num) + "/" + NatToString(f.den)
  {
    ProperRemainder(f);
    IntToStringShape(f.den);
    if mixed {
      assert Rem(f.num, f.den) == f.num;
    }
  }

  /** Mixed display with a whole part: "W N/D", the sign carried by W. */
  lemma DecodeToTextMixed(f: Fraction)
    requires f.den > 1 && Quot(f.num, f.den) != 0
    ensures Decoded(ToText(f, true)) == Ok(f)
  {
    var wholeNum := Quot(f.num, f.den);
    var nominator := Rem(f.num, f.den);
    var a := if wholeNum < 0 then Abs(nominator) else nominator;
    MixedText(f);
    DecodeMixed(wholeNum, a, f.den);
    MixedValue(f);
  }

  /** The whole part and printed remainder construct the fraction again. */
  lemma MixedValue(f: Fraction)
    requires f.den > 1 && Quot(f.num, f.den) != 0
    ensures var wholeNum := Quot(f.num, f.den);
            var nominator := Rem(f.num, f.den);
            Construct(wholeNum, if wholeNum < 0 then Abs(nominator) else nominator, f.den) == Ok(f)
  {
    var wholeNum := Quot(f.num, f.den);
    var nominator := Rem(f.num, f.den);
    var a := if wholeNum < 0 then Abs(nominator) else nominator;
    MixedParts(f.num, f.den);
    CanonicalForm(Construct(wholeNum, a, f.den).value, f);
  }

  lemma MixedText(f: Fraction)
    requires f.den > 1 && Quot(f.num, f.den) != 0
    ensures var wholeNum := Quot(f.num, f.den);
            var nominator := Rem(f.num, f.den);
            ToText(f, true) == IntToString(wholeNum) + " "
              + IntToString(if wholeNum < 0 then Abs(nominator) else nominator) + "/" + NatToString(f.den)
  {
    ProperRemainder(f);
    IntToStringShape(f.den);
  }

  /** The whole part and the remainder `toString` prints give back the numerator:
      the remainder is non-negative when the whole part is positive, and its
      magnitude is subtracted when the whole part is negative. */
  lemma MixedParts(num: int, den: int)
    requires den > 0 && Quot(num, den) != 0
    ensures Quot(num, den) > 0 ==> Rem(num, den) >= 0 && num == Quot(num, den) * den + Rem(num, den)
    ensures Quot(num, den) < 0 ==> num == Quot(num, den) * den - Abs(Rem(num, den))
  {
    QuotRemSigns(num, den);
  }

  /** Examples: blank text and a zero denominator are rejected. */
  lemma DecodeRejects()
    ensures Decoded("") == Err(NumberFormatException)
    ensures Decoded("   ") == Err(NumberFormatException)
    ensures Decoded("1/0") == Err(NumberFormatException)
  {
    DecodeBlank("");
    DecodeBlank("   ");
    assert IntToString(1) + "/" + NatToString(0) == "1/0";
    DecodeRatio(1, 0);
  }
}
