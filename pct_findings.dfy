/** Inputs on which the loop as written and the corrected normaliser part
    ways, three of them taken from the repository's own tests of the IRI
    class, together with the steps that compute both results. */
module PctFindings {
  import opened Text
  import opened PctEncoding

  // ---------------------------------------------------------------------
  // Steps of the loop as written

  lemma HaltsAt(s: Bytes, cs: CharSet, mode: CaseMode, position: nat, strlen: nat)
    requires position >= strlen
    ensures Run(s, cs, mode, position, strlen) == Halts(s)
  {
  }

  lemma DivergesAt(s: Bytes, cs: CharSet, mode: CaseMode, strlen: nat)
    requires |s| < strlen
    ensures Run(s, cs, mode, |s|, strlen) == Diverges
  {
    assert Span(s, cs, |s|) == 0;
  }

  lemma StepAt(s: Bytes, cs: CharSet, mode: CaseMode, p: nat, strlen: nat, t: Bytes, q: nat, n: nat)
    requires p < strlen && p < |s| && !Allowed(cs, s[p])
    requires Pass(t, q, n) == RunPass(s, cs, mode, p, strlen)
    ensures Run(s, cs, mode, p, strlen) == Run(t, cs, mode, q, n)
  {
    RunUnfold(s, cs, mode, p, strlen, p, Pass(t, q, n));
  }

  /** A triplet of two hex digits for a byte that is not allowed. */
  lemma StepUpper(s: Bytes, cs: CharSet, mode: CaseMode, p: nat, strlen: nat, t: Bytes)
    requires p + 2 < strlen && p + 2 < |s| && s[p] == '%' && IsHexDigit(s[p + 1])
    requires !Allowed(cs, Chr(s[p + 1..p + 3])) && t == s[..p + 1] + Upper(s[p + 1..p + 3]) + s[p + 3..]
    ensures Run(s, cs, mode, p, strlen) == Run(t, cs, mode, p + 3, strlen)
  {
    PassUpper(s, cs, mode, p, strlen);
    StepAt(s, cs, mode, p, strlen, t, p + 3, strlen);
  }

  lemma PassUpper(s: Bytes, cs: CharSet, mode: CaseMode, p: nat, strlen: nat)
    requires p + 2 < strlen && p + 2 < |s| && s[p] == '%' && IsHexDigit(s[p + 1])
    requires !Allowed(cs, Chr(s[p + 1..p + 3]))
    ensures RunPass(s, cs, mode, p, strlen) == Pass(s[..p + 1] + Upper(s[p + 1..p + 3]) + s[p + 3..], p + 3, strlen)
  {
  }

  /** A triplet of two hex digits for an allowed byte: the byte replaces
      the digits and the '%' stays. */
  lemma StepDecode(s: Bytes, cs: CharSet, mode: CaseMode, p: nat, strlen: nat, t: Bytes)
    requires p + 2 < strlen && p + 2 < |s| && s[p] == '%' && IsHexDigit(s[p + 1])
    requires Allowed(cs, Chr(s[p + 1..p + 3])) && t == s[..p + 1] + [RecaseChar(mode, Chr(s[p + 1..p + 3]))] + s[p + 3..]
    ensures Run(s, cs, mode, p, strlen) == Run(t, cs, mode, p + 1, strlen - 2)
  {
    PassDecode(s, cs, mode, p, strlen);
    StepAt(s, cs, mode, p, strlen, t, p + 1, strlen - 2);
  }

  lemma PassDecode(s: Bytes, cs: CharSet, mode: CaseMode, p: nat, strlen: nat)
    requires p + 2 < strlen && p + 2 < |s| && s[p] == '%' && IsHexDigit(s[p + 1])
    requires Allowed(cs, Chr(s[p + 1..p + 3]))
    ensures RunPass(s, cs, mode, p, strlen)
         == Pass(s[..p + 1] + [RecaseChar(mode, Chr(s[p + 1..p + 3]))] + s[p + 3..], p + 1, strlen - 2)
  {
  }

  /** A byte to encode: every copy becomes '%' and the digits dechex writes. */
  lemma StepEncode(s: Bytes, cs: CharSet, mode: CaseMode, p: nat, strlen: nat, t: Bytes, n: nat)
    requires p < strlen && p < |s| && !Allowed(cs, s[p]) && s[p] != '%'
    requires t == ReplaceAll(s, [s[p]], DechexTriplet(s[p])) && n == strlen + 2 * Count(s, s[p])
    ensures Run(s, cs, mode, p, strlen) == Run(t, cs, mode, p, n)
  {
    PassEncode(s, cs, mode, p, strlen, t, n);
    StepAt(s, cs, mode, p, strlen, t, p, n);
  }

  lemma PassEncode(s: Bytes, cs: CharSet, mode: CaseMode, p: nat, strlen: nat, t: Bytes, n: nat)
    requires p < strlen && p < |s| && !Allowed(cs, s[p]) && s[p] != '%'
    requires t == ReplaceAll(s, [s[p]], DechexTriplet(s[p])) && n == strlen + 2 * Count(s, s[p])
    ensures RunPass(s, cs, mode, p, strlen) == Pass(t, p, n)
  {
  }

  // ---------------------------------------------------------------------
  // Steps of the corrected loop

  lemma NormalizeEscape(s: Bytes, cs: CharSet, mode: CaseMode, p: nat, t: Bytes)
    requires p < |s| && s[p] == '%' && !(p + 2 < |s| && IsHexDigit(s[p + 1]) && IsHexDigit(s[p + 2]))
    requires t == s[..p] + Escape + s[p + 1..]
    ensures NormalizeFrom(s, cs, mode, p) == NormalizeFrom(t, cs, mode, p + 3)
  {
    NormalizeStep(s, cs, mode, p, (t, p + 3));
  }

  lemma NormalizeUpper(s: Bytes, cs: CharSet, mode: CaseMode, p: nat, t: Bytes)
    requires p + 2 < |s| && s[p] == '%' && IsHexDigit(s[p + 1]) && IsHexDigit(s[p + 2])
    requires !Allowed(cs, Chr(s[p + 1..p + 3])) && t == s[..p + 1] + Upper(s[p + 1..p + 3]) + s[p + 3..]
    ensures NormalizeFrom(s, cs, mode, p) == NormalizeFrom(t, cs, mode, p + 3)
  {
    NormalizeStep(s, cs, mode, p, (t, p + 3));
  }

  lemma NormalizeDecode(s: Bytes, cs: CharSet, mode: CaseMode, p: nat, t: Bytes)
    requires p + 2 < |s| && s[p] == '%' && IsHexDigit(s[p + 1]) && IsHexDigit(s[p + 2])
    requires Allowed(cs, Chr(s[p + 1..p + 3])) && t == s[..p] + [RecaseChar(mode, Chr(s[p + 1..p + 3]))] + s[p + 3..]
    ensures NormalizeFrom(s, cs, mode, p) == NormalizeFrom(t, cs, mode, p + 1)
  {
    NormalizeStep(s, cs, mode, p, (t, p + 1));
  }

  lemma NormalizeEncode(s: Bytes, cs: CharSet, mode: CaseMode, p: nat, t: Bytes)
    requires p < |s| && !Allowed(cs, s[p]) && s[p] != '%' && t == ReplaceAll(s, [s[p]], Triplet(s[p]))
    ensures p <= |t| && NormalizeFrom(s, cs, mode, p) == NormalizeFrom(t, cs, mode, p)
  {
    NormalizeStep(s, cs, mode, p, (t, p));
  }

  // ---------------------------------------------------------------------
  // iri.php:309: one hex digit passes for a triplet

  /** The relative path "f%0o" (IRITest.php:110): as written the stray '%'
      stays and its digits are upper-cased. */
  lemma OneHexDigitAsWritten(s: Bytes)
    requires s == "f%0o"
    ensures Replaced(s, PathChars, SameCase) == Halts("f%0O")
  {
    OneHexDigitChr(s);
    var t: Bytes := "f%0O";
    OneHexDigitUpper(s, t);
    OneHexDigitRun(s, t);
  }

  lemma OneHexDigitRun(s: Bytes, t: Bytes)
    requires |s| == 4 && Allowed(PathChars, s[0]) && s[1] == '%' && IsHexDigit(s[2])
    requires !Allowed(PathChars, Chr(s[2..4])) && t == s[..2] + Upper(s[2..4]) + s[4..]
    ensures Run(s, PathChars, SameCase, 0, 4) == Halts(t)
  {
    RunSkip(s, PathChars, SameCase, 0, 4);
    StepUpper(s, PathChars, SameCase, 1, 4, t);
    HaltsAt(t, PathChars, SameCase, 4, 4);
  }

  lemma OneHexDigitChr(s: Bytes)
    requires s == "f%0o"
    ensures Chr(s[2..4]) == 0 as char && !Allowed(PathChars, Chr(s[2..4]))
  {
    var two := s[2..4];
    assert two == "0o" && !IsHexDigit(two[1]);
    assert Hexdec(two) == Hexdec(two[..1]);
    assert two[..1] == "0" && two[..1][..0] == [];
    assert Hexdec(two[..1]) == Hexdec([]) * 16 + HexDigitValue('0');
  }

  lemma OneHexDigitUpper(s: Bytes, t: Bytes)
    requires s == "f%0o" && t == "f%0O"
    ensures s[..2] + Upper(s[2..4]) + s[4..] == t
  {
    assert s[2..4] == "0o";
  }

  /** The corrected loop escapes the '%', which the test expects. */
  lemma OneHexDigitCorrected(s: Bytes)
    requires s == "f%0o"
    ensures Normalized(s, PathChars, SameCase) == "f%250o"
  {
    var t: Bytes := "f%250o";
    OneHexDigitEscape(s, t);
    OneHexDigitNormalize(s, t);
  }

  lemma OneHexDigitNormalize(s: Bytes, t: Bytes)
    requires |s| == 4 && Allowed(PathChars, s[0]) && s[1] == '%' && !IsHexDigit(s[3])
    requires t == s[..1] + Escape + s[2..] && |t| == 6 && Allowed(PathChars, t[4]) && Allowed(PathChars, t[5])
    ensures NormalizeFrom(s, PathChars, SameCase, 0) == t
  {
    NormalizeSkip(s, PathChars, SameCase, 0);
    NormalizeEscape(s, PathChars, SameCase, 1, t);
    NormalizeSkip(t, PathChars, SameCase, 4);
    NormalizeSkip(t, PathChars, SameCase, 5);
    NormalizeEnd(t, PathChars, SameCase);
  }

  lemma OneHexDigitEscape(s: Bytes, t: Bytes)
    requires s == "f%0o" && t == "f%250o"
    ensures s[..1] + Escape + s[2..] == t
  {
  }

  // ---------------------------------------------------------------------
  // iri.php:325-326: a decoded triplet keeps its '%'

  /** The path segment "%63" (IRITest.php:142): as written the '%' is kept
      in front of the decoded 'c'. */
  lemma DecodeKeepsPercentAsWritten(s: Bytes)
    requires s == "%63"
    ensures Replaced(s, PathChars, SameCase) == Halts("%c")
  {
    DecodeChr(s);
    DecodeKeepsPercentRun(s, "%c");
  }

  lemma DecodeChr(s: Bytes)
    requires s == "%63"
    ensures Chr(s[1..3]) == 'c'
  {
    var two := s[1..3];
    assert two == "63";
    HexdecConcatDigit([two[0]], two[1]);
    HexdecConcatDigit([], two[0]);
    assert [two[0]] == [] + [two[0]] && two == [two[0]] + [two[1]];
  }

  lemma DecodeKeepsPercentRun(s: Bytes, t: Bytes)
    requires |s| == 3 && s[0] == '%' && IsHexDigit(s[1]) && Allowed(PathChars, Chr(s[1..3]))
    requires t == s[..1] + [RecaseChar(SameCase, Chr(s[1..3]))] + s[3..]
    ensures Run(s, PathChars, SameCase, 0, 3) == Halts(t)
  {
    StepDecode(s, PathChars, SameCase, 0, 3, t);
    HaltsAt(t, PathChars, SameCase, 1, 1);
  }

  /** The corrected loop decodes the triplet to 'c', which the test expects. */
  lemma DecodeKeepsPercentCorrected(s: Bytes)
    requires s == "%63"
    ensures Normalized(s, PathChars, SameCase) == "c"
  {
    DecodeChr(s);
    DecodeNormalize(s, "c");
  }

  lemma DecodeNormalize(s: Bytes, t: Bytes)
    requires |s| == 3 && s[0] == '%' && IsHexDigit(s[1]) && IsHexDigit(s[2]) && Allowed(PathChars, Chr(s[1..3]))
    requires t == [Chr(s[1..3])]
    ensures NormalizeFrom(s, PathChars, SameCase, 0) == t
  {
    assert t == s[..0] + [Chr(s[1..3])] + s[3..];
    NormalizeDecode(s, PathChars, SameCase, 0, t);
    NormalizeEnd(t, PathChars, SameCase);
  }

  // ---------------------------------------------------------------------
  // iri.php:325-326: $strlen runs ahead of the string

  /** "%63" followed by the byte 0xE9, as a query: substr_replace shrinks
      the string by one byte while $strlen drops by two, so the scan stops
      one byte short and 0xE9 is left unencoded. */
  lemma EarlyStopAsWritten(s: Bytes)
    requires s == "%63\U{E9}"
    ensures Replaced(s, QueryChars, SameCase) == Halts("%c\U{E9}")
  {
    DecodeChr(s[..3]);
    assert s[..3][1..3] == s[1..3];
    EarlyStopRun(s, "%c\U{E9}");
  }

  lemma EarlyStopRun(s: Bytes, t: Bytes)
    requires |s| == 4 && s[0] == '%' && IsHexDigit(s[1]) && Allowed(QueryChars, Chr(s[1..3]))
    requires t == s[..1] + [RecaseChar(SameCase, Chr(s[1..3]))] + s[3..]
    ensures Run(s, QueryChars, SameCase, 0, 4) == Halts(t)
  {
    StepDecode(s, QueryChars, SameCase, 0, 4, t);
    RunSkip(t, QueryChars, SameCase, 1, 2);
    HaltsAt(t, QueryChars, SameCase, 2, 2);
  }

  /** The corrected loop decodes the triplet and encodes 0xE9. */
  lemma EarlyStopCorrected(s: Bytes)
    requires s == "%63\U{E9}"
    ensures Normalized(s, QueryChars, SameCase) == "c%E9"
  {
    DecodeChr(s[..3]);
    assert s[..3][1..3] == s[1..3];
    var t: Bytes := "c\U{E9}";
    assert t == s[..0] + [Chr(s[1..3])] + s[3..];
    NormalizeDecode(s, QueryChars, SameCase, 0, t);
    var u: Bytes := "c%E9";
    EarlyStopTriplet(t, u);
    EarlyStopNormalize(t, u);
  }

  lemma EarlyStopTriplet(t: Bytes, u: Bytes)
    requires t == "c\U{E9}" && u == "c%E9"
    ensures u == ReplaceAll(t, [t[1]], Triplet(t[1])) && Chr(u[2..4]) == t[1] && Upper(u[2..4]) == u[2..4]
  {
    var c := t[1];
    var rep := Triplet(c);
    assert Hex2(c) == "E9";
    assert rep == "%E9";
    ReplaceStep(t, [c], rep);
    ReplaceStep(t[1..], [c], rep);
    assert t[1..][..1] == [c] && t[1..][1..] == [] && t[..1] != [c];
    assert ReplaceAll(t, [c], rep) == [t[0]] + rep;
    assert u[2..4] == Hex2(c);
    Hex2Value(c);
  }

  lemma EarlyStopNormalize(t: Bytes, u: Bytes)
    requires |t| == 2 && !Allowed(QueryChars, t[1]) && t[1] != '%'
    requires u == ReplaceAll(t, [t[1]], Triplet(t[1])) && |u| == 4 && u[1] == '%'
    requires IsHexDigit(u[2]) && IsHexDigit(u[3]) && Chr(u[2..4]) == t[1] && Upper(u[2..4]) == u[2..4]
    ensures NormalizeFrom(t, QueryChars, SameCase, 1) == u
  {
    NormalizeEncode(t, QueryChars, SameCase, 1, u);
    assert u == u[..2] + Upper(u[2..4]) + u[4..];
    NormalizeUpper(u, QueryChars, SameCase, 1, u);
    NormalizeEnd(u, QueryChars, SameCase);
  }

  // ---------------------------------------------------------------------
  // iri.php:348: a one-digit triplet, and a loop that never ends

  /** The relative path "c\x0Ad" (IRITest.php:115): as written the line
      feed becomes "%A", its one digit is read together with the 'd' as the
      byte 0xAD, and $position lands at the end of the string with $strlen
      one past it, where the loop spins. */
  lemma LineFeedAsWritten(s: Bytes)
    requires s == "c\nd"
    ensures Replaced(s, PathChars, SameCase) == Diverges
  {
    var t: Bytes, u: Bytes := "c%Ad", "c%AD";
    LineFeedEncoded(s, t);
    LineFeedRun(s, t);
    LineFeedSpin(t, u);
  }

  lemma LineFeedEncoded(s: Bytes, t: Bytes)
    requires s == "c\nd" && t == "c%Ad"
    ensures t == ReplaceAll(s, [s[1]], DechexTriplet(s[1])) && Count(s, s[1]) == 1
  {
    var rep := DechexTriplet(s[1]);
    assert Dechex(10) == "a";
    assert rep == "%A";
    ReplaceMiddle(s, rep);
  }

  /** Replacing the middle one of three bytes, which occurs only there. */
  lemma ReplaceMiddle(s: Bytes, rep: Bytes)
    requires |s| == 3 && s[0] != s[1] && s[2] != s[1]
    ensures ReplaceAll(s, [s[1]], rep) == [s[0]] + rep + [s[2]] && Count(s, s[1]) == 1
  {
    var c := s[1];
    assert s == [s[0]] + [c] + [s[2]];
    ReplaceByteConcat([s[0]] + [c], [s[2]], c, rep);
    ReplaceByteConcat([s[0]], [c], c, rep);
    ReplaceStep([c], [c], rep);
    assert [c][1..] == [];
    CountConcat([s[0]] + [c], [s[2]], c);
    CountConcat([s[0]], [c], c);
  }

  lemma LineFeedChr(t: Bytes)
    requires t == "c%Ad"
    ensures Chr(t[2..4]) as int == 0xAD && !Allowed(PathChars, Chr(t[2..4]))
  {
    var two := t[2..4];
    assert two == "Ad";
    HexdecConcatDigit([two[0]], two[1]);
    HexdecConcatDigit([], two[0]);
    assert [two[0]] == [] + [two[0]] && two == [two[0]] + [two[1]];
  }

  lemma LineFeedUpper(t: Bytes, u: Bytes)
    requires t == "c%Ad" && u == "c%AD"
    ensures u == t[..2] + Upper(t[2..4]) + t[4..]
  {
    assert t[2..4] == "Ad";
  }

  lemma LineFeedRun(s: Bytes, t: Bytes)
    requires |s| == 3 && Allowed(PathChars, s[0]) && !Allowed(PathChars, s[1]) && s[1] != '%'
    requires t == ReplaceAll(s, [s[1]], DechexTriplet(s[1])) && Count(s, s[1]) == 1
    ensures Run(s, PathChars, SameCase, 0, 3) == Run(t, PathChars, SameCase, 1, 5)
  {
    RunSkip(s, PathChars, SameCase, 0, 3);
    StepEncode(s, PathChars, SameCase, 1, 3, t, 5);
  }

  lemma LineFeedSpin(t: Bytes, u: Bytes)
    requires t == "c%Ad" && u == "c%AD"
    ensures Run(t, PathChars, SameCase, 1, 5) == Diverges
  {
    LineFeedChr(t);
    LineFeedUpper(t, u);
    StepUpper(t, PathChars, SameCase, 1, 5, u);
    DivergesAt(u, PathChars, SameCase, 5);
  }

  /** The corrected loop writes two digits, which the test expects. */
  lemma LineFeedCorrected(s: Bytes)
    requires s == "c\nd"
    ensures Normalized(s, PathChars, SameCase) == "c%0Ad"
  {
    var t: Bytes := "c%0Ad";
    LineFeedTriplet(s, t);
    LineFeedNormalize(s, t);
  }

  lemma LineFeedTriplet(s: Bytes, t: Bytes)
    requires s == "c\nd" && t == "c%0Ad"
    ensures t == ReplaceAll(s, [s[1]], Triplet(s[1])) && Chr(t[2..4]) == s[1] && Upper(t[2..4]) == t[2..4]
  {
    var rep := Triplet(s[1]);
    assert rep == "%0A";
    ReplaceMiddle(s, rep);
    LineFeedDigits(s[1], t[2..4]);
  }

  lemma LineFeedDigits(c: Byte, two: Bytes)
    requires c == '\n' && two == "0A"
    ensures Chr(two) == c && Upper(two) == two
  {
    assert two == Hex2(c);
    Hex2Value(c);
  }

  lemma LineFeedNormalize(s: Bytes, t: Bytes)
    requires |s| == 3 && Allowed(PathChars, s[0]) && !Allowed(PathChars, s[1]) && s[1] != '%'
    requires t == ReplaceAll(s, [s[1]], Triplet(s[1])) && |t| == 5 && t[1] == '%'
    requires IsHexDigit(t[2]) && IsHexDigit(t[3]) && Chr(t[2..4]) == s[1] && Upper(t[2..4]) == t[2..4]
    requires Allowed(PathChars, t[4])
    ensures NormalizeFrom(s, PathChars, SameCase, 0) == t
  {
    NormalizeSkip(s, PathChars, SameCase, 0);
    NormalizeEncode(s, PathChars, SameCase, 1, t);
    assert t == t[..2] + Upper(t[2..4]) + t[4..];
    NormalizeUpper(t, PathChars, SameCase, 1, t);
    NormalizeSkip(t, PathChars, SameCase, 4);
    NormalizeEnd(t, PathChars, SameCase);
  }
}
