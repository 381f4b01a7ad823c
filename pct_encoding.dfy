/** The percent-encoding normaliser that every IRI component setter runs:
    bytes outside a component's allowed set become %HH triplets, triplets
    of allowed bytes are decoded, and stray '%' signs become "%25".

    Two versions are modelled. `Run` and the method
    `ReplaceInvalidWithPctEncoding` follow the loop exactly as written,
    defects included (see README, "Findings"); `Normalized` is the
    corrected normaliser that the setters use. */
module PctEncoding {
  import opened Text

  // ---------------------------------------------------------------------
  // Character sets and case modes

  /** The four $valid_chars strings the setters pass. */
  datatype CharSet = UserinfoChars | HostChars | PathChars | QueryChars

  /** RFC 3987 unreserved bytes (ASCII part). */
  predicate Unreserved(c: Byte) { IsAlpha(c) || IsDigit(c) || c == '-' || c == '.' || c == '_' || c == '~' }

  /** RFC 3986 sub-delims. */
  predicate SubDelim(c: Byte)
  {
    c == '!' || c == '$' || c == '&' || c == '\'' || c == '(' || c == ')' ||
    c == '*' || c == '+' || c == ',' || c == ';' || c == '='
  }

  /** Whether c occurs in the set of valid characters. */
  predicate Allowed(cs: CharSet, c: Byte)
  {
    Unreserved(c) || SubDelim(c) ||
    match cs
    case UserinfoChars => c == ':'
    case HostChars => false
    case PathChars => c == '@' || c == '/'
    case QueryChars => c == ':' || c == '@' || c == '/' || c == '?'
  }

  /** The $case argument: same_case, lowercase or uppercase. */
  datatype CaseMode = SameCase | Lowercase | Uppercase

  function RecaseChar(mode: CaseMode, c: Byte): (r: Byte)
    ensures !IsAlpha(c) ==> r == c
    ensures IsAlpha(r) <==> IsAlpha(c)
  {
    match mode
    case SameCase => c
    case Lowercase => LowerChar(c)
    case Uppercase => UpperChar(c)
  }

  function Recase(mode: CaseMode, s: Bytes): (r: Bytes)
    ensures |r| == |s| && forall i :: 0 <= i < |s| ==> r[i] == RecaseChar(mode, s[i])
  {
    match mode
    case SameCase => s
    case Lowercase => Lower(s)
    case Uppercase => Upper(s)
  }

  /** Changing the case of a byte keeps it inside or outside every set. */
  lemma RecaseAllowed(cs: CharSet, mode: CaseMode, c: Byte)
    ensures Allowed(cs, RecaseChar(mode, c)) <==> Allowed(cs, c)
  {
  }

  /** strspn($s, $valid_chars, $from): the length of the run of allowed
      bytes starting at from; 0 at or past the end. */
  function Span(s: Bytes, cs: CharSet, from: nat): (n: nat)
    ensures n == 0 || from + n <= |s|
    ensures forall i :: from <= i < from + n ==> Allowed(cs, s[i])
    ensures from + n < |s| ==> !Allowed(cs, s[from + n])
    decreases |s| - from
  {
    if from < |s| && Allowed(cs, s[from]) then 1 + Span(s, cs, from + 1) else 0
  }

  /** strspn stops at a byte that is not allowed. */
  lemma SpanEnd(s: Bytes, cs: CharSet, from: nat, p: nat)
    requires p == from + Span(s, cs, from) && p < |s|
    ensures !Allowed(cs, s[p])
  {
  }

  /** chr(hexdec($two)) for the one or two bytes after a '%'. */
  function Chr(two: Bytes): (c: Byte)
    requires |two| <= 2
    ensures c as int == Hexdec(two)
  {
    HexdecSmall(two);
    Hexdec(two) as char
  }

  /** What a stray '%' becomes. */
  const Escape: Bytes := "%25"

  // ---------------------------------------------------------------------
  // Work measure shared by both versions

  /** The number of bytes that still need encoding: neither allowed nor '%'. */
  function Bad(s: Bytes, cs: CharSet): nat
    decreases |s|
  {
    if s == [] then 0 else (if Allowed(cs, s[0]) || s[0] == '%' then 0 else 1) + Bad(s[1..], cs)
  }

  lemma {:induction false} BadConcat(a: Bytes, b: Bytes, cs: CharSet)
    ensures Bad(a + b, cs) == Bad(a, cs) + Bad(b, cs)
    decreases |a|
  {
    if a == [] {
      assert a + b == b;
    } else {
      assert (a + b)[0] == a[0];
      assert (a + b)[1..] == a[1..] + b;
      BadConcat(a[1..], b, cs);
    }
  }

  lemma {:induction false} BadUpper(s: Bytes, cs: CharSet)
    ensures Bad(Upper(s), cs) == Bad(s, cs)
    decreases |s|
  {
    if s != [] {
      assert Upper(s)[1..] == Upper(s[1..]);
      BadUpper(s[1..], cs);
    }
  }

  lemma {:induction false} BadHex(s: Bytes, cs: CharSet)
    requires AllHex(s)
    ensures Bad(s, cs) == 0
    decreases |s|
  {
    if s != [] {
      BadHex(s[1..], cs);
    }
  }

  /** Replacing every copy of a byte that needs encoding by text that needs
      none removes that many units of work. */
  lemma {:induction false} BadReplace(s: Bytes, cs: CharSet, c: Byte, rep: Bytes)
    requires !Allowed(cs, c) && c != '%' && Bad(rep, cs) == 0
    ensures Bad(ReplaceAll(s, [c], rep), cs) + Count(s, c) == Bad(s, cs)
    decreases |s|
  {
    if s != [] {
      assert s[..1] == [s[0]];
      BadReplace(s[1..], cs, c, rep);
      if s[0] == c {
        BadConcat(rep, ReplaceAll(s[1..], [c], rep), cs);
      } else {
        BadConcat([s[0]], ReplaceAll(s[1..], [c], rep), cs);
      }
    }
  }

  /** Splitting s around the bytes [i, j) that a step rewrites. */
  lemma BadSplit(s: Bytes, cs: CharSet, i: nat, j: nat)
    requires i <= j <= |s|
    ensures Bad(s, cs) == Bad(s[..i], cs) + Bad(s[i..j], cs) + Bad(s[j..], cs)
  {
    assert s == s[..i] + s[i..j] + s[j..];
    BadConcat(s[..i] + s[i..j], s[j..], cs);
    BadConcat(s[..i], s[i..j], cs);
  }

  /** Rewriting the bytes [i, j) of s by mid, where mid needs no more work
      than what it replaces, does not add work. */
  lemma BadRewrite(s: Bytes, cs: CharSet, i: nat, j: nat, mid: Bytes)
    requires i <= j <= |s|
    requires Bad(mid, cs) <= Bad(s[i..j], cs)
    ensures Bad(s[..i] + mid + s[j..], cs) <= Bad(s, cs)
  {
    BadSplit(s, cs, i, j);
    BadConcat(s[..i] + mid, s[j..], cs);
    BadConcat(s[..i], mid, cs);
  }

  /** The encoded form of an invalid byte needs no further work. */
  lemma BadEncoding(cs: CharSet, digits: Bytes)
    requires AllHex(digits)
    ensures Bad("%" + Upper(digits), cs) == 0
  {
    BadUpper(digits, cs);
    BadHex(digits, cs);
    BadConcat("%", Upper(digits), cs);
  }

  /** Encoding every copy of the byte at p, which needs work, strictly
      reduces the work left. */
  lemma BadEncodeStep(s: Bytes, cs: CharSet, p: nat, digits: Bytes)
    requires p < |s| && !Allowed(cs, s[p]) && s[p] != '%' && AllHex(digits)
    ensures Bad(ReplaceAll(s, [s[p]], "%" + Upper(digits)), cs) < Bad(s, cs)
  {
    BadEncoding(cs, digits);
    BadReplace(s, cs, s[p], "%" + Upper(digits));
    CountZero(s, s[p]);
  }

  /** Decoding a triplet to an allowed byte adds no work. */
  lemma BadDecodeStep(s: Bytes, cs: CharSet, i: nat, j: nat, x: Byte)
    requires i <= j <= |s| && Allowed(cs, x)
    ensures Bad(s[..i] + [x] + s[j..], cs) <= Bad(s, cs)
  {
    BadRewrite(s, cs, i, j, [x]);
  }

  /** Upper-casing the digits of a triplet adds no work. */
  lemma BadUpperStep(s: Bytes, cs: CharSet, i: nat, j: nat)
    requires i <= j <= |s|
    ensures Bad(s[..i] + Upper(s[i..j]) + s[j..], cs) <= Bad(s, cs)
  {
    BadUpper(s[i..j], cs);
    BadRewrite(s, cs, i, j, Upper(s[i..j]));
  }

  /** Escaping a '%' as "%25" adds no work. */
  lemma BadEscapeStep(s: Bytes, cs: CharSet, p: nat)
    requires p < |s| && s[p] == '%'
    ensures Bad(s[..p] + Escape + s[p + 1..], cs) <= Bad(s, cs)
  {
    assert Bad(s[p..p + 1], cs) == 0 by { assert s[p..p + 1] == [s[p]]; }
    BadEscape(cs);
    BadRewrite(s, cs, p, p + 1, Escape);
  }

  /** The escape "%25" needs no further work. */
  lemma BadEscape(cs: CharSet)
    ensures Bad(Escape, cs) == 0
  {
    BadHex("25", cs);
    BadConcat("%", "25", cs);
    assert Escape == "%" + "25";
  }

  // ---------------------------------------------------------------------
  // The loop as written

  /** What the loop does: return a string, or spin forever. */
  datatype Outcome = Halts(result: Bytes) | Diverges

  /** The loop's variables ($string, $position, $strlen) after one pass. */
  datatype Pass = Pass(s: Bytes, position: nat, strlen: nat)

  /** One pass of the loop body, once $position has been advanced to p, a
      byte that is not allowed. Every pass either does work or moves
      $position closer to $strlen. */
  function RunPass(s: Bytes, cs: CharSet, mode: CaseMode, p: nat, strlen: nat): (r: Pass)
    requires p < strlen && p < |s| && !Allowed(cs, s[p])
    ensures Bad(r.s, cs) <= Bad(s, cs)
    ensures Bad(r.s, cs) < Bad(s, cs) || r.strlen - r.position < strlen - p
  {
    if s[p] == '%' then
      if p + 2 < strlen && p + 1 < |s| && IsHexDigit(s[p + 1]) then
        var m := if p + 3 <= |s| then p + 3 else |s|;
        var chr := Chr(s[p + 1..m]);
        if Allowed(cs, chr) then
          RecaseAllowed(cs, mode, chr);
          BadDecodeStep(s, cs, p + 1, m, RecaseChar(mode, chr));
          Pass(s[..p + 1] + [RecaseChar(mode, chr)] + s[m..], p + 1, strlen - 2)
        else
          BadUpperStep(s, cs, p + 1, m);
          Pass(s[..p + 1] + Upper(s[p + 1..m]) + s[m..], p + 3, strlen)
      else
        BadEscapeStep(s, cs, p);
        Pass(s[..p] + Escape + s[p + 1..], p + 3, strlen + 2)
    else
      BadEncodeStep(s, cs, p, Dechex(s[p] as int));
      Pass(ReplaceAll(s, [s[p]], DechexTriplet(s[p])), p, strlen + 2 * Count(s, s[p]))
  }

  /** The loop from the state ($string, $position, $strlen). $strlen is the
      loop's own running count, which can drift from |s|; once $position
      sits at or past the true end with $position < $strlen,
      `$string[$position]` reads "" and str_replace with an empty needle
      changes nothing, so the loop never moves again. */
  function Run(s: Bytes, cs: CharSet, mode: CaseMode, position: nat, strlen: nat): Outcome
    decreases Bad(s, cs), if strlen > position then strlen - position else 0, 1
  {
    RunAt(s, cs, mode, position + Span(s, cs, position), strlen)
  }

  /** The loop once strspn has moved $position to p. */
  function RunAt(s: Bytes, cs: CharSet, mode: CaseMode, p: nat, strlen: nat): Outcome
    requires p < |s| ==> !Allowed(cs, s[p])
    decreases Bad(s, cs), if strlen > p then strlen - p else 0, 0
  {
    if p >= strlen then Halts(s)
    else if p >= |s| then Diverges
    else
      var r := RunPass(s, cs, mode, p, strlen);
      Run(r.s, cs, mode, r.position, r.strlen)
  }

  /** The first pass of Run, once the allowed run before p is skipped. */
  lemma RunUnfold(s: Bytes, cs: CharSet, mode: CaseMode, position: nat, strlen: nat, p: nat, r: Pass)
    requires p == position + Span(s, cs, position) && p < strlen && p < |s|
    requires r == RunPass(s, cs, mode, p, strlen)
    ensures Run(s, cs, mode, position, strlen) == Run(r.s, cs, mode, r.position, r.strlen)
  {
  }

  /** replace_invalid_with_pct_encoding($str, $valid_chars, $case) as written. */
  function Replaced(str: Bytes, cs: CharSet, mode: CaseMode): Outcome
  {
    var s := Recase(mode, str);
    Run(s, cs, mode, 0, |s|)
  }

  /** The loop itself. It returns `halts == false` at the point where the
      source would spin forever instead of returning. */
  method ReplaceInvalidWithPctEncoding(str: Bytes, cs: CharSet, mode: CaseMode) returns (out: Bytes, halts: bool)
    ensures Replaced(str, cs, mode) == if halts then Halts(out) else Diverges
  {
    var s: Bytes := Recase(mode, str);
    var position: nat := 0;
    var strlen: nat := |s|;
    ghost var outcome := Run(s, cs, mode, position, strlen);
    while true
      invariant Run(s, cs, mode, position, strlen) == outcome
      decreases Bad(s, cs), if strlen > position then strlen - position else 0
    {
      ghost var start := position;
      position := position + Span(s, cs, position);
      if position >= strlen {
        return s, true;
      }
      if position >= |s| {
        return s, false;
      }
      SpanEnd(s, cs, start, position);
      ghost var pass := RunPass(s, cs, mode, position, strlen);
      RunUnfold(s, cs, mode, start, strlen, position, pass);
      s, position, strlen := LoopBody(s, cs, mode, position, strlen);
    }
  }

  /** The body of the loop once $position has reached a byte that is not
      allowed. */
  method LoopBody(s: Bytes, cs: CharSet, mode: CaseMode, position: nat, strlen: nat)
    returns (s': Bytes, position': nat, strlen': nat)
    requires position < strlen && position < |s| && !Allowed(cs, s[position])
    ensures Pass(s', position', strlen') == RunPass(s, cs, mode, position, strlen)
  {
    s', position', strlen' := s, position, strlen;
    if s[position] == '%' {
      if position + 2 < strlen && position + 1 < |s| && IsHexDigit(s[position + 1]) {
        var m := if position + 3 <= |s| then position + 3 else |s|;
        var chr := Chr(s[position + 1..m]);
        if Allowed(cs, chr) {
          chr := RecaseChar(mode, chr);
          s' := s[..position + 1] + [chr] + s[m..];
          strlen' := strlen - 2;
          position' := position + 1;
        } else {
          s' := s[..position + 1] + Upper(s[position + 1..m]) + s[m..];
          position' := position + 3;
        }
      } else {
        s' := s[..position] + Escape + s[position + 1..];
        strlen' := strlen + 2;
        position' := position + 3;
      }
    } else {
      var count := Count(s, s[position]);
      s' := ReplaceAll(s, [s[position]], DechexTriplet(s[position]));
      strlen' := strlen + 2 * count;
    }
  }

  // ---------------------------------------------------------------------
  // The corrected normaliser

  /** One pass of the corrected loop at p, a byte that is not allowed: a
      triplet needs two hex digits, a decoded byte replaces the whole
      triplet, and an encoded byte always gets two digits. */
  function NormalizePass(s: Bytes, cs: CharSet, mode: CaseMode, p: nat): (r: (Bytes, nat))
    requires p < |s| && !Allowed(cs, s[p])
    ensures r.1 <= |r.0|
    ensures Bad(r.0, cs) <= Bad(s, cs)
    ensures Bad(r.0, cs) < Bad(s, cs) || |r.0| - r.1 < |s| - p
  {
    if s[p] == '%' then
      if p + 2 < |s| && IsHexDigit(s[p + 1]) && IsHexDigit(s[p + 2]) then
        var chr := Chr(s[p + 1..p + 3]);
        if Allowed(cs, chr) then
          RecaseAllowed(cs, mode, chr);
          DecodeTriplet(s, cs, p, RecaseChar(mode, chr))
        else
          UpperTriplet(s, cs, p)
      else
        EscapePercent(s, cs, p)
    else
      EncodeByte(s, cs, p)
  }

  /** A triplet at p standing for the allowed byte x becomes x. */
  function DecodeTriplet(s: Bytes, cs: CharSet, p: nat, x: Byte): (r: (Bytes, nat))
    requires p + 3 <= |s| && Allowed(cs, x)
    ensures r.1 <= |r.0| && Bad(r.0, cs) <= Bad(s, cs) && |r.0| - r.1 < |s| - p
  {
    BadDecodeStep(s, cs, p, p + 3, x);
    (s[..p] + [x] + s[p + 3..], p + 1)
  }

  /** A triplet at p that stays encoded gets upper-case digits. */
  function UpperTriplet(s: Bytes, cs: CharSet, p: nat): (r: (Bytes, nat))
    requires p + 3 <= |s|
    ensures r.1 <= |r.0| && Bad(r.0, cs) <= Bad(s, cs) && |r.0| - r.1 < |s| - p
  {
    BadUpperStep(s, cs, p + 1, p + 3);
    (s[..p + 1] + Upper(s[p + 1..p + 3]) + s[p + 3..], p + 3)
  }

  /** A '%' at p that starts no triplet becomes "%25". */
  function EscapePercent(s: Bytes, cs: CharSet, p: nat): (r: (Bytes, nat))
    requires p < |s| && s[p] == '%'
    ensures r.1 <= |r.0| && Bad(r.0, cs) <= Bad(s, cs) && |r.0| - r.1 < |s| - p
  {
    BadEscapeStep(s, cs, p);
    (s[..p] + Escape + s[p + 1..], p + 3)
  }

  /** Every copy of the byte at p, which needs encoding, becomes its
      two-digit triplet. */
  function EncodeByte(s: Bytes, cs: CharSet, p: nat): (r: (Bytes, nat))
    requires p < |s| && !Allowed(cs, s[p]) && s[p] != '%'
    ensures r.1 <= |r.0| && Bad(r.0, cs) < Bad(s, cs)
  {
    UpperHex2(s[p]);
    BadEncodeStep(s, cs, p, Hex2(s[p]));
    ReplaceByteLength(s, s[p], Triplet(s[p]));
    (ReplaceAll(s, [s[p]], Triplet(s[p])), p)
  }

  /** The corrected loop from $position, with $strlen always |s|; allowed
      bytes are skipped one at a time, which is what strspn amounts to. */
  function NormalizeFrom(s: Bytes, cs: CharSet, mode: CaseMode, position: nat): Bytes
    requires position <= |s|
    decreases Bad(s, cs), |s| - position
  {
    if position == |s| then s
    else if Allowed(cs, s[position]) then NormalizeFrom(s, cs, mode, position + 1)
    else
      var r := NormalizePass(s, cs, mode, position);
      NormalizeFrom(r.0, cs, mode, r.1)
  }

  lemma NormalizeEnd(s: Bytes, cs: CharSet, mode: CaseMode)
    ensures NormalizeFrom(s, cs, mode, |s|) == s
  {
  }

  lemma NormalizeSkip(s: Bytes, cs: CharSet, mode: CaseMode, p: nat)
    requires p < |s| && Allowed(cs, s[p])
    ensures NormalizeFrom(s, cs, mode, p) == NormalizeFrom(s, cs, mode, p + 1)
  {
  }

  lemma NormalizeStep(s: Bytes, cs: CharSet, mode: CaseMode, p: nat, r: (Bytes, nat))
    requires p < |s| && !Allowed(cs, s[p]) && r == NormalizePass(s, cs, mode, p)
    ensures NormalizeFrom(s, cs, mode, p) == NormalizeFrom(r.0, cs, mode, r.1)
  {
  }

  /** '%' and the upper-cased digits dechex writes for c: only one digit
      below 0x10. */
  function DechexTriplet(c: Byte): Bytes
  {
    var pct: Bytes := "%";
    pct + Upper(Dechex(c as int))
  }

  /** The %HH triplet that encodes c. */
  function Triplet(c: Byte): (r: Bytes)
    ensures |r| == 3 && r[0] == '%' && r[1..] == Hex2(c)
  {
    var pct: Bytes := "%";
    pct + Hex2(c)
  }

  /** Upper-casing a triplet body written by Hex2 changes nothing. */
  lemma UpperHex2(c: Byte)
    ensures Upper(Hex2(c)) == Hex2(c)
  {
  }

  /** The corrected replace_invalid_with_pct_encoding. */
  function Normalized(str: Bytes, cs: CharSet, mode: CaseMode): Bytes
  {
    NormalizeFrom(Recase(mode, str), cs, mode, 0)
  }
  /** strspn over an allowed byte is one more than strspn after it. */
  lemma SpanStep(s: Bytes, cs: CharSet, position: nat)
    requires position < |s| && Allowed(cs, s[position])
    ensures position + Span(s, cs, position) == (position + 1) + Span(s, cs, position + 1)
  {
  }

  /** Run skips an allowed byte the way strspn does. */
  lemma RunSkip(s: Bytes, cs: CharSet, mode: CaseMode, position: nat, strlen: nat)
    requires position < |s| && Allowed(cs, s[position])
    ensures Run(s, cs, mode, position, strlen) == Run(s, cs, mode, position + 1, strlen)
  {
    SpanStep(s, cs, position);
  }

  // ---------------------------------------------------------------------
  // The normal form the corrected normaliser produces

  /** Two upper-case hexadecimal digits. */
  predicate UpperHexPair(x: Byte, y: Byte)
  {
    IsHexDigit(x) && !IsLower(x) && IsHexDigit(y) && !IsLower(y)
  }

  /** Normal form for a character set: allowed bytes, and %HH triplets
      with upper-case digits standing for bytes that are not allowed. */
  predicate Normal(s: Bytes, cs: CharSet)
    decreases |s|
  {
    if s == [] then true
    else if Allowed(cs, s[0]) then Normal(s[1..], cs)
    else |s| >= 3 && s[0] == '%' && UpperHexPair(s[1], s[2]) && !Allowed(cs, Chr(s[1..3]))
         && Normal(s[3..], cs)
  }

  lemma {:induction false} NormalConcat(a: Bytes, b: Bytes, cs: CharSet)
    requires Normal(a, cs) && Normal(b, cs)
    ensures Normal(a + b, cs)
    decreases |a|
  {
    if a == [] {
      assert a + b == b;
    } else if Allowed(cs, a[0]) {
      SliceConcat(a, b, 1);
      assert (a + b)[0] == a[0];
      NormalConcat(a[1..], b, cs);
    } else {
      SliceConcat(a, b, 3);
      assert (a + b)[1..3] == a[1..3];
      NormalConcat(a[3..], b, cs);
    }
  }

  lemma {:induction false} NormalAllowed(t: Bytes, cs: CharSet)
    requires forall i :: 0 <= i < |t| ==> Allowed(cs, t[i])
    ensures Normal(t, cs)
    decreases |t|
  {
    if t != [] {
      NormalAllowed(t[1..], cs);
    }
  }

  /** A byte that needs encoding never occurs in normal text. */
  lemma {:induction false} NormalExcludes(t: Bytes, cs: CharSet, c: Byte)
    requires Normal(t, cs) && !Allowed(cs, c) && c != '%'
    ensures c !in t
    decreases |t|
  {
    if t != [] {
      var n := if Allowed(cs, t[0]) then 1 else 3;
      NormalExcludes(t[n..], cs, c);
      forall i | 0 <= i < |t|
        ensures t[i] != c
      {
        if i >= n {
          assert t[i] == t[n..][i - n];
        }
      }
    }
  }

  /** A triplet %HH with upper-case digits for a byte that is not allowed. */
  lemma NormalTriplet(digits: Bytes, cs: CharSet)
    requires |digits| == 2 && UpperHexPair(digits[0], digits[1]) && !Allowed(cs, Chr(digits))
    ensures Normal("%" + digits, cs)
  {
    var t := "%" + digits;
    assert t[1..3] == digits && t[3..] == [];
  }

  /** Upper-casing two hex digits gives an upper-case pair of equal value. */
  lemma UpperPair(two: Bytes)
    requires |two| == 2 && IsHexDigit(two[0]) && IsHexDigit(two[1])
    ensures UpperHexPair(Upper(two)[0], Upper(two)[1]) && Chr(Upper(two)) == Chr(two)
  {
    HexdecUpper(two);
  }

  lemma DecodeKeepsNormal(s: Bytes, cs: CharSet, p: nat, x: Byte)
    requires p + 3 <= |s| && Normal(s[..p], cs) && Allowed(cs, x)
    ensures Normal(DecodeTriplet(s, cs, p, x).0[..DecodeTriplet(s, cs, p, x).1], cs)
  {
    assert (s[..p] + [x] + s[p + 3..])[..p + 1] == s[..p] + [x];
    NormalAllowed([x], cs);
    NormalConcat(s[..p], [x], cs);
  }

  lemma UpperKeepsNormal(s: Bytes, cs: CharSet, p: nat)
    requires p + 3 <= |s| && s[p] == '%' && IsHexDigit(s[p + 1]) && IsHexDigit(s[p + 2])
    requires !Allowed(cs, Chr(s[p + 1..p + 3])) && Normal(s[..p], cs)
    ensures Normal(UpperTriplet(s, cs, p).0[..UpperTriplet(s, cs, p).1], cs)
  {
    var two := s[p + 1..p + 3];
    UpperPair(two);
    NormalTriplet(Upper(two), cs);
    assert (s[..p + 1] + Upper(two) + s[p + 3..])[..p + 3] == s[..p] + ("%" + Upper(two));
    NormalConcat(s[..p], "%" + Upper(two), cs);
  }

  lemma EscapeKeepsNormal(s: Bytes, cs: CharSet, p: nat)
    requires p < |s| && s[p] == '%' && Normal(s[..p], cs)
    ensures Normal(EscapePercent(s, cs, p).0[..EscapePercent(s, cs, p).1], cs)
  {
    EscapeNormal(cs);
    assert (s[..p] + Escape + s[p + 1..])[..p + 3] == s[..p] + Escape;
    NormalConcat(s[..p], Escape, cs);
  }

  /** The escape "%25" is itself in normal form. */
  lemma EscapeNormal(cs: CharSet)
    ensures Normal(Escape, cs)
  {
    assert Chr("25") == '%';
    NormalTriplet("25", cs);
    assert Escape == "%" + "25";
  }

  lemma EncodeKeepsNormal(s: Bytes, cs: CharSet, p: nat)
    requires p < |s| && !Allowed(cs, s[p]) && s[p] != '%' && Normal(s[..p], cs)
    ensures Normal(EncodeByte(s, cs, p).0[..EncodeByte(s, cs, p).1], cs)
  {
    EncodePrefix(s, cs, p);
    SliceConcat(s[..p], ReplaceAll(s[p..], [s[p]], Triplet(s[p])), p);
  }

  /** Encoding the byte at p leaves a normal prefix before it alone. */
  lemma EncodePrefix(s: Bytes, cs: CharSet, p: nat)
    requires p < |s| && !Allowed(cs, s[p]) && s[p] != '%' && Normal(s[..p], cs)
    ensures ReplaceAll(s, [s[p]], Triplet(s[p])) == s[..p] + ReplaceAll(s[p..], [s[p]], Triplet(s[p]))
  {
    var c := s[p];
    var rep := Triplet(c);
    NormalExcludes(s[..p], cs, c);
    ReplaceByteAbsent(s[..p], c, rep);
    ReplaceByteConcat(s[..p], s[p..], c, rep);
    assert s == s[..p] + s[p..];
  }

  /** One corrected pass keeps the processed prefix normal. */
  lemma PassKeepsNormal(s: Bytes, cs: CharSet, mode: CaseMode, p: nat)
    requires p < |s| && !Allowed(cs, s[p]) && Normal(s[..p], cs)
    ensures Normal(NormalizePass(s, cs, mode, p).0[..NormalizePass(s, cs, mode, p).1], cs)
  {
    if s[p] == '%' {
      if p + 2 < |s| && IsHexDigit(s[p + 1]) && IsHexDigit(s[p + 2]) {
        var chr := Chr(s[p + 1..p + 3]);
        if Allowed(cs, chr) {
          RecaseAllowed(cs, mode, chr);
          DecodeKeepsNormal(s, cs, p, RecaseChar(mode, chr));
        } else {
          UpperKeepsNormal(s, cs, p);
        }
      } else {
        EscapeKeepsNormal(s, cs, p);
      }
    } else {
      EncodeKeepsNormal(s, cs, p);
    }
  }

  lemma {:induction false} NormalizeFromNormal(s: Bytes, cs: CharSet, mode: CaseMode, position: nat)
    requires position <= |s| && Normal(s[..position], cs)
    ensures Normal(NormalizeFrom(s, cs, mode, position), cs)
    decreases Bad(s, cs), |s| - position
  {
    if position == |s| {
      assert s[..position] == s;
    } else if Allowed(cs, s[position]) {
      AllowedKeepsNormal(s, cs, position);
      NormalizeFromNormal(s, cs, mode, position + 1);
    } else {
      PassKeepsNormal(s, cs, mode, position);
      var r := NormalizePass(s, cs, mode, position);
      NormalizeFromNormal(r.0, cs, mode, r.1);
    }
  }

  lemma AllowedKeepsNormal(s: Bytes, cs: CharSet, p: nat)
    requires p < |s| && Allowed(cs, s[p]) && Normal(s[..p], cs)
    ensures Normal(s[..p + 1], cs)
  {
    NormalAllowed([s[p]], cs);
    NormalConcat(s[..p], [s[p]], cs);
    assert s[..p + 1] == s[..p] + [s[p]];
  }

  /** The corrected normaliser always produces normal form. */
  lemma NormalizedIsNormal(str: Bytes, cs: CharSet, mode: CaseMode)
    ensures Normal(Normalized(str, cs, mode), cs)
  {
    NormalizeFromNormal(Recase(mode, str), cs, mode, 0);
  }

  /** Normal text passes through the same-case normaliser unchanged. */
  lemma {:induction false} NormalIsFixed(s: Bytes, cs: CharSet, position: nat)
    requires position <= |s| && Normal(s[position..], cs)
    ensures NormalizeFrom(s, cs, SameCase, position) == s
    decreases |s| - position
  {
    if position < |s| {
      if Allowed(cs, s[position]) {
        assert s[position..][1..] == s[position + 1..];
        NormalIsFixed(s, cs, position + 1);
      } else {
        TripletFixed(s, cs, position);
        NormalIsFixed(s, cs, position + 3);
      }
    }
  }

  /** A normal triplet is left as it is, and the scan moves past it. */
  lemma TripletFixed(s: Bytes, cs: CharSet, p: nat)
    requires p < |s| && !Allowed(cs, s[p]) && Normal(s[p..], cs)
    ensures p + 3 <= |s| && NormalizePass(s, cs, SameCase, p) == (s, p + 3)
    ensures Normal(s[p + 3..], cs)
  {
    var t := s[p..];
    assert t[1..3] == s[p + 1..p + 3] && t[3..] == s[p + 3..];
    var two := s[p + 1..p + 3];
    assert Upper(two) == two;
    assert s[..p + 1] + two + s[p + 3..] == s;
  }

  /** The same-case normaliser leaves a string alone exactly when it is
      already in normal form. */
  lemma NormalFixpoint(s: Bytes, cs: CharSet)
    ensures Normalized(s, cs, SameCase) == s <==> Normal(s, cs)
  {
    NormalizedIsNormal(s, cs, SameCase);
    if Normal(s, cs) {
      assert s[0..] == s;
      NormalIsFixed(s, cs, 0);
    }
  }

  /** Normalising again changes nothing. */
  lemma NormalizedIdempotent(s: Bytes, cs: CharSet, mode: CaseMode)
    ensures Normalized(Normalized(s, cs, mode), cs, SameCase) == Normalized(s, cs, mode)
  {
    NormalizedIsNormal(s, cs, mode);
    NormalFixpoint(Normalized(s, cs, mode), cs);
  }

  // ---------------------------------------------------------------------
  // Where the two versions agree

  /** Two hex digits after the '%' at the head of t. */
  predicate TripletHead(t: Bytes)
  {
    |t| >= 3 && t[0] == '%' && IsHexDigit(t[1]) && IsHexDigit(t[2])
  }

  /** A '%' at the head of t that is last or followed by a byte that is no
      hex digit: both versions escape it to "%25". */
  predicate LoneHead(t: Bytes)
  {
    t != [] && t[0] == '%' && (|t| == 1 || !IsHexDigit(t[1]))
  }

  /** Text the loop as written gets right: allowed bytes, bytes of at
      least 0x10 that need encoding, triplets with two hex digits standing
      for bytes that are not allowed, and a '%' that starts no triplet
      because no hex digit follows it. */
  predicate Tame(t: Bytes, cs: CharSet)
    decreases |t|
  {
    if t == [] then true
    else if Allowed(cs, t[0]) then Tame(t[1..], cs)
    else if TripletHead(t) then !Allowed(cs, Chr(t[1..3])) && Tame(t[3..], cs)
    else if t[0] == '%' then LoneHead(t) && Tame(t[1..], cs)
    else t[0] as int >= 16 && Tame(t[1..], cs)
  }

  /** Tame text stays tame when more follows, unless its last byte is a
      '%' that the next byte could turn into a triplet. */
  lemma {:induction false} TameConcat(a: Bytes, b: Bytes, cs: CharSet)
    requires Tame(a, cs) && Tame(b, cs) && (a == [] || a[|a| - 1] != '%')
    ensures Tame(a + b, cs)
    decreases |a|
  {
    if a == [] {
      assert a + b == b;
    } else if Allowed(cs, a[0]) || !TripletHead(a) {
      SliceConcat(a, b, 1);
      assert (a + b)[0] == a[0];
      assert a[0] == '%' ==> |a| >= 2 && (a + b)[1] == a[1];
      TameConcat(a[1..], b, cs);
    } else {
      SliceConcat(a, b, 3);
      assert (a + b)[1..3] == a[1..3];
      TameConcat(a[3..], b, cs);
    }
  }

  /** The triplet written for a byte that is not allowed. */
  lemma TameTriplet(c: Byte, cs: CharSet)
    requires !Allowed(cs, c)
    ensures Tame(Triplet(c), cs)
  {
    var t := Triplet(c);
    Hex2Value(c);
    assert t[1..3] == Hex2(c) && t[3..] == [];
  }

  /** The first one or three bytes of tame text that starts with no lone
      '%', once the byte c is encoded: tame, and not ending in '%'. */
  lemma TameHead(t: Bytes, cs: CharSet, c: Byte, k: nat)
    requires t != [] && Tame(t, cs) && !Allowed(cs, c) && c != '%' && !LoneHead(t)
    requires k == if TripletHead(t) then 3 else 1
    ensures k <= |t| && Tame(ReplaceAll(t[..k], [c], Triplet(c)), cs)
    ensures var h := ReplaceAll(t[..k], [c], Triplet(c)); h != [] && h[|h| - 1] != '%'
  {
    if k == 3 {
      TameHeadTriplet(t, cs, c);
    } else if t[0] == c {
      TameHeadMatch(t, cs, c);
    } else {
      TameHeadOther(t, cs, c);
    }
  }

  lemma TameHeadTriplet(t: Bytes, cs: CharSet, c: Byte)
    requires Tame(t, cs) && TripletHead(t) && !Allowed(cs, c) && c != '%'
    ensures Tame(ReplaceAll(t[..3], [c], Triplet(c)), cs)
    ensures ReplaceAll(t[..3], [c], Triplet(c)) == t[..3]
  {
    var h := t[..3];
    TamePrefix(t, cs);
    HexAllowed(cs, t[1]);
    HexAllowed(cs, t[2]);
    AbsentFromThree(h, c);
    ReplaceByteAbsent(h, c, Triplet(c));
  }

  lemma AbsentFromThree(h: Bytes, c: Byte)
    requires |h| == 3 && c != h[0] && c != h[1] && c != h[2]
    ensures c !in h
  {
    assert h == [h[0], h[1], h[2]];
  }

  /** Hexadecimal digits are unreserved, so every set allows them. */
  lemma HexAllowed(cs: CharSet, x: Byte)
    requires IsHexDigit(x)
    ensures Allowed(cs, x)
  {
  }

  lemma TamePrefix(t: Bytes, cs: CharSet)
    requires Tame(t, cs) && TripletHead(t)
    ensures Tame(t[..3], cs)
  {
    var h := t[..3];
    assert h[1..3] == t[1..3] && h[3..] == [];
  }

  lemma TameHeadMatch(t: Bytes, cs: CharSet, c: Byte)
    requires t != [] && !Allowed(cs, c) && t[0] == c
    ensures Tame(ReplaceAll(t[..1], [c], Triplet(c)), cs)
    ensures ReplaceAll(t[..1], [c], Triplet(c)) == Triplet(c)
  {
    var rep := Triplet(c);
    assert t[..1] == [c];
    ReplaceStep([c], [c], rep);
    assert [c][..1] == [c] && [c][1..] == [];
    assert rep + [] == rep;
    TameTriplet(c, cs);
  }

  lemma TameHeadOther(t: Bytes, cs: CharSet, c: Byte)
    requires t != [] && Tame(t, cs) && t[0] != c && !TripletHead(t) && !LoneHead(t)
    ensures Tame(ReplaceAll(t[..1], [c], Triplet(c)), cs)
    ensures ReplaceAll(t[..1], [c], Triplet(c)) == [t[0]] && t[0] != '%'
  {
    var h := t[..1];
    assert h == [t[0]] && c !in h;
    ReplaceByteAbsent(h, c, Triplet(c));
    assert h[1..] == [];
  }

  /** The first byte once c is encoded: the triplet's '%' or the byte
      itself. */
  lemma ReplaceHead(u: Bytes, c: Byte, rep: Bytes)
    requires u != [] && rep != []
    ensures ReplaceAll(u, [c], rep) != []
    ensures ReplaceAll(u, [c], rep)[0] == if u[0] == c then rep[0] else u[0]
  {
    ReplaceStep(u, [c], rep);
    assert u[..1] == [c] <==> u[0] == c;
  }

  /** A lone '%' is left for the escape and what follows it is encoded;
      the byte after the '%' stays one that is no hex digit. */
  lemma TameLoneReplace(t: Bytes, cs: CharSet, c: Byte)
    requires Tame(t, cs) && LoneHead(t) && !Allowed(cs, c) && c != '%'
    requires Tame(ReplaceAll(t[1..], [c], Triplet(c)), cs)
    ensures Tame(ReplaceAll(t, [c], Triplet(c)), cs)
  {
    var rep := Triplet(c);
    var r := ReplaceAll(t[1..], [c], rep);
    ReplaceStep(t, [c], rep);
    assert t[..1] != [c];
    assert ReplaceAll(t, [c], rep) == [t[0]] + r;
    var u := [t[0]] + r;
    assert u[1..] == r;
    if t[1..] != [] {
      ReplaceHead(t[1..], c, rep);
      assert u[1] == r[0];
    } else {
      assert r == [];
    }
  }

  /** Encoding a byte of at least 0x10 keeps text tame. */
  lemma {:induction false} TameReplace(t: Bytes, cs: CharSet, c: Byte)
    requires Tame(t, cs) && !Allowed(cs, c) && c != '%'
    ensures Tame(ReplaceAll(t, [c], Triplet(c)), cs)
    decreases |t|
  {
    if t != [] {
      var rep := Triplet(c);
      if LoneHead(t) {
        TameReplace(t[1..], cs, c);
        TameLoneReplace(t, cs, c);
      } else {
        var k := if TripletHead(t) then 3 else 1;
        TameHead(t, cs, c, k);
        assert Tame(t[k..], cs);
        TameReplace(t[k..], cs, c);
        assert t == t[..k] + t[k..];
        ReplaceByteConcat(t[..k], t[k..], c, rep);
        TameConcat(ReplaceAll(t[..k], [c], rep), ReplaceAll(t[k..], [c], rep), cs);
      }
    }
  }

  /** On a tame triplet both versions upper-case the digits and move on. */
  lemma TripletAgrees(s: Bytes, cs: CharSet, mode: CaseMode, p: nat)
    requires p < |s| && TripletHead(s[p..]) && Normal(s[..p], cs) && Tame(s[p..], cs)
    ensures p + 3 <= |s| && !Allowed(cs, s[p])
    ensures RunPass(s, cs, mode, p, |s|) == Pass(UpperTriplet(s, cs, p).0, p + 3, |s|)
    ensures NormalizePass(s, cs, mode, p) == UpperTriplet(s, cs, p)
    ensures |UpperTriplet(s, cs, p).0| == |s|
    ensures Normal(UpperTriplet(s, cs, p).0[..p + 3], cs) && Tame(UpperTriplet(s, cs, p).0[p + 3..], cs)
  {
    var t := s[p..];
    assert t[0] == '%' && t[1] == s[p + 1] && t[2] == s[p + 2];
    assert t[1..3] == s[p + 1..p + 3] && t[3..] == s[p + 3..];
    UpperKeepsNormal(s, cs, p);
    var u := s[..p + 1] + Upper(s[p + 1..p + 3]) + s[p + 3..];
    assert u[p + 3..] == s[p + 3..];
  }

  /** On a lone '%' both versions write "%25" and move past it; $strlen
      keeps up with the string. */
  lemma EscapeAgrees(s: Bytes, cs: CharSet, mode: CaseMode, p: nat)
    requires p < |s| && s[p] == '%' && !TripletHead(s[p..]) && Normal(s[..p], cs) && Tame(s[p..], cs)
    ensures RunPass(s, cs, mode, p, |s|) == Pass(EscapePercent(s, cs, p).0, p + 3, |s| + 2)
    ensures NormalizePass(s, cs, mode, p) == EscapePercent(s, cs, p)
    ensures |EscapePercent(s, cs, p).0| == |s| + 2
    ensures Normal(EscapePercent(s, cs, p).0[..p + 3], cs) && Tame(EscapePercent(s, cs, p).0[p + 3..], cs)
  {
    var t := s[p..];
    assert t[0] == '%' && LoneHead(t);
    assert |t| > 1 ==> t[1] == s[p + 1];
    assert t[1..] == s[p + 1..];
    EscapeKeepsNormal(s, cs, p);
    var u := s[..p] + Escape + s[p + 1..];
    assert u[p + 3..] == s[p + 1..];
  }

  /** On a tame byte that needs encoding both versions write the same
      triplets and stay where they are; $strlen keeps up with the string. */
  lemma EncodeAgrees(s: Bytes, cs: CharSet, mode: CaseMode, p: nat)
    requires p < |s| && !Allowed(cs, s[p]) && s[p] != '%' && Normal(s[..p], cs) && Tame(s[p..], cs)
    ensures RunPass(s, cs, mode, p, |s|) == Pass(EncodeByte(s, cs, p).0, p, |EncodeByte(s, cs, p).0|)
    ensures NormalizePass(s, cs, mode, p) == EncodeByte(s, cs, p)
    ensures Normal(EncodeByte(s, cs, p).0[..p], cs) && Tame(EncodeByte(s, cs, p).0[p..], cs)
  {
    var c := s[p];
    var rep := Triplet(c);
    assert s[p..][0] == c;
    UpperDechexIsHex2(c);
    ReplaceByteLength(s, c, rep);
    EncodeKeepsNormal(s, cs, p);
    EncodePrefix(s, cs, p);
    TameReplace(s[p..], cs, c);
    SliceConcat(s[..p], ReplaceAll(s[p..], [c], rep), p);
    assert s[..p][p..] == [];
  }

  /** From a normal prefix and a tame rest, the loop as written halts with
      what the corrected loop returns. */
  lemma {:induction false} RunAgrees(s: Bytes, cs: CharSet, mode: CaseMode, position: nat)
    requires position <= |s| && Normal(s[..position], cs) && Tame(s[position..], cs)
    ensures Run(s, cs, mode, position, |s|) == Halts(NormalizeFrom(s, cs, mode, position))
    decreases Bad(s, cs), |s| - position
  {
    if position == |s| {
      EndAgrees(s, cs, mode);
    } else if Allowed(cs, s[position]) {
      SkipAgrees(s, cs, mode, position);
      RunAgrees(s, cs, mode, position + 1);
    } else {
      var r := PassAgrees(s, cs, mode, position);
      NormalizeStep(s, cs, mode, position, r);
      RunAgrees(r.0, cs, mode, r.1);
    }
  }

  lemma EndAgrees(s: Bytes, cs: CharSet, mode: CaseMode)
    ensures Run(s, cs, mode, |s|, |s|) == Halts(NormalizeFrom(s, cs, mode, |s|))
  {
    assert Span(s, cs, |s|) == 0;
  }

  /** An allowed byte is skipped by both versions and keeps the invariant. */
  lemma SkipAgrees(s: Bytes, cs: CharSet, mode: CaseMode, position: nat)
    requires position < |s| && Allowed(cs, s[position])
    requires Normal(s[..position], cs) && Tame(s[position..], cs)
    ensures Run(s, cs, mode, position, |s|) == Run(s, cs, mode, position + 1, |s|)
    ensures NormalizeFrom(s, cs, mode, position) == NormalizeFrom(s, cs, mode, position + 1)
    ensures Normal(s[..position + 1], cs) && Tame(s[position + 1..], cs)
  {
    RunSkip(s, cs, mode, position, |s|);
    NormalizeSkip(s, cs, mode, position);
    AllowedKeepsNormal(s, cs, position);
    TameSkip(s, cs, position);
  }

  lemma TameSkip(s: Bytes, cs: CharSet, position: nat)
    requires position < |s| && Allowed(cs, s[position]) && Tame(s[position..], cs)
    ensures Tame(s[position + 1..], cs)
  {
    assert s[position..][1..] == s[position + 1..];
  }

  /** One pass at a byte that is not allowed, the same in both versions. */
  lemma PassAgrees(s: Bytes, cs: CharSet, mode: CaseMode, p: nat) returns (r: (Bytes, nat))
    requires p < |s| && !Allowed(cs, s[p]) && Normal(s[..p], cs) && Tame(s[p..], cs)
    ensures r == NormalizePass(s, cs, mode, p)
    ensures r.1 <= |r.0| && Normal(r.0[..r.1], cs) && Tame(r.0[r.1..], cs)
    ensures Run(s, cs, mode, p, |s|) == Run(r.0, cs, mode, r.1, |r.0|)
  {
    if TripletHead(s[p..]) {
      r := TripletPass(s, cs, mode, p);
    } else if s[p] == '%' {
      r := EscapePass(s, cs, mode, p);
    } else {
      r := EncodePass(s, cs, mode, p);
    }
  }

  lemma TripletPass(s: Bytes, cs: CharSet, mode: CaseMode, p: nat) returns (r: (Bytes, nat))
    requires p < |s| && TripletHead(s[p..]) && Normal(s[..p], cs) && Tame(s[p..], cs)
    ensures r == NormalizePass(s, cs, mode, p)
    ensures r.1 <= |r.0| && Normal(r.0[..r.1], cs) && Tame(r.0[r.1..], cs)
    ensures Run(s, cs, mode, p, |s|) == Run(r.0, cs, mode, r.1, |r.0|)
  {
    assert Span(s, cs, p) == 0;
    TripletAgrees(s, cs, mode, p);
    r := UpperTriplet(s, cs, p);
    RunUnfold(s, cs, mode, p, |s|, p, Pass(r.0, p + 3, |s|));
  }

  lemma EscapePass(s: Bytes, cs: CharSet, mode: CaseMode, p: nat) returns (r: (Bytes, nat))
    requires p < |s| && s[p] == '%' && !TripletHead(s[p..]) && Normal(s[..p], cs) && Tame(s[p..], cs)
    ensures r == NormalizePass(s, cs, mode, p)
    ensures r.1 <= |r.0| && Normal(r.0[..r.1], cs) && Tame(r.0[r.1..], cs)
    ensures Run(s, cs, mode, p, |s|) == Run(r.0, cs, mode, r.1, |r.0|)
  {
    assert Span(s, cs, p) == 0;
    EscapeAgrees(s, cs, mode, p);
    r := EscapePercent(s, cs, p);
    RunUnfold(s, cs, mode, p, |s|, p, Pass(r.0, p + 3, |s| + 2));
  }

  lemma EncodePass(s: Bytes, cs: CharSet, mode: CaseMode, p: nat) returns (r: (Bytes, nat))
    requires p < |s| && !Allowed(cs, s[p]) && s[p] != '%' && Normal(s[..p], cs) && Tame(s[p..], cs)
    ensures r == NormalizePass(s, cs, mode, p)
    ensures r.1 <= |r.0| && Normal(r.0[..r.1], cs) && Tame(r.0[r.1..], cs)
    ensures Run(s, cs, mode, p, |s|) == Run(r.0, cs, mode, r.1, |r.0|)
  {
    assert Span(s, cs, p) == 0;
    EncodeAgrees(s, cs, mode, p);
    r := EncodeByte(s, cs, p);
    RunUnfold(s, cs, mode, p, |s|, p, Pass(r.0, p, |r.0|));
  }

  /** Input without '%' whose bytes that need encoding are all at least 0x10. */
  predicate Plain(s: Bytes, cs: CharSet)
  {
    forall i :: 0 <= i < |s| ==> s[i] != '%' && (Allowed(cs, s[i]) || s[i] as int >= 16)
  }

  lemma {:induction false} PlainTame(s: Bytes, cs: CharSet)
    requires Plain(s, cs)
    ensures Tame(s, cs)
    decreases |s|
  {
    if s != [] {
      PlainTame(s[1..], cs);
    }
  }

  /** On plain input the loop as written halts, with the corrected result. */
  lemma PlainAgrees(str: Bytes, cs: CharSet, mode: CaseMode)
    requires Plain(str, cs)
    ensures Replaced(str, cs, mode) == Halts(Normalized(str, cs, mode))
  {
    var s := Recase(mode, str);
    forall i | 0 <= i < |s|
      ensures s[i] != '%' && (Allowed(cs, s[i]) || s[i] as int >= 16)
    {
      RecaseAllowed(cs, mode, str[i]);
    }
    PlainTame(s, cs);
    TameAgrees(str, cs, mode);
  }

  /** Wherever the case-mapped input is tame, the loop as written halts
      with what the corrected normaliser returns. */
  lemma TameAgrees(str: Bytes, cs: CharSet, mode: CaseMode)
    requires Tame(Recase(mode, str), cs)
    ensures Replaced(str, cs, mode) == Halts(Normalized(str, cs, mode))
  {
    var s := Recase(mode, str);
    assert s[..0] == [] && s[0..] == s;
    RunAgrees(s, cs, mode, 0);
  }

  /** Text in normal form is tame. */
  lemma {:induction false} NormalTame(s: Bytes, cs: CharSet)
    requires Normal(s, cs)
    ensures Tame(s, cs)
    decreases |s|
  {
    if s != [] {
      if Allowed(cs, s[0]) {
        NormalTame(s[1..], cs);
      } else {
        assert TripletHead(s);
        NormalTame(s[3..], cs);
      }
    }
  }

  /** Text whose bytes are all allowed comes back unchanged from the loop
      as written. */
  lemma AllowedUnchanged(s: Bytes, cs: CharSet)
    requires forall i :: 0 <= i < |s| ==> Allowed(cs, s[i])
    ensures Replaced(s, cs, SameCase) == Halts(s)
  {
    NormalAllowed(s, cs);
    NormalTame(s, cs);
    TameAgrees(s, cs, SameCase);
    NormalFixpoint(s, cs);
  }

  /** Normal text comes back unchanged from the loop as written. */
  lemma NormalUnchanged(s: Bytes, cs: CharSet)
    requires Normal(s, cs)
    ensures Replaced(s, cs, SameCase) == Halts(s)
  {
    NormalTame(s, cs);
    TameAgrees(s, cs, SameCase);
    NormalFixpoint(s, cs);
  }

  /** A '%' that ends the input is escaped to "%25" by the loop as
      written, as by the corrected normaliser. */
  lemma TrailingPercentEscaped(a: Bytes, cs: CharSet)
    requires forall i :: 0 <= i < |a| ==> Allowed(cs, a[i])
    ensures Replaced(a + "%", cs, SameCase) == Halts(a + Escape)
  {
    TrailingPercentTame(a, cs);
    TameAgrees(a + "%", cs, SameCase);
    TrailingPercentNormalized(a, cs);
  }

  lemma TrailingPercentTame(a: Bytes, cs: CharSet)
    requires forall i :: 0 <= i < |a| ==> Allowed(cs, a[i])
    ensures Tame(a + "%", cs)
  {
    var pct: Bytes := "%";
    NormalAllowed(a, cs);
    NormalTame(a, cs);
    assert Tame(pct, cs) by {
      assert pct[1..] == [];
    }
    TameConcat(a, pct, cs);
  }

  lemma TrailingPercentNormalized(a: Bytes, cs: CharSet)
    requires forall i :: 0 <= i < |a| ==> Allowed(cs, a[i])
    ensures Normalized(a + "%", cs, SameCase) == a + Escape
  {
    var s := a + "%";
    assert s[..|a|] == a && s[|a| + 1..] == [] && s[|a|] == '%';
    SkipAllowed(s, cs, 0, |a|);
    var t := a + Escape;
    assert t == s[..|a|] + Escape + s[|a| + 1..];
    NormalizeStep(s, cs, SameCase, |a|, (t, |a| + 3));
  }

  /** The corrected normaliser passes over a run of allowed bytes. */
  lemma {:induction false} SkipAllowed(s: Bytes, cs: CharSet, i: nat, j: nat)
    requires i <= j <= |s| && forall k :: i <= k < j ==> Allowed(cs, s[k])
    ensures NormalizeFrom(s, cs, SameCase, i) == NormalizeFrom(s, cs, SameCase, j)
    decreases j - i
  {
    if i < j {
      NormalizeSkip(s, cs, SameCase, i);
      SkipAllowed(s, cs, i + 1, j);
    }
  }
}
