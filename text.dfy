/** Byte strings and the PHP string primitives that the IRI parser and the
    IPv6 helpers are built from: case mapping, hexadecimal and decimal
    conversion, search, explode and str_replace. */
module Text {

  /** PHP strings are byte strings: a byte is a char below U+0100. */
  type Byte = c: char | c < 'Ā' witness 'a'
  type Bytes = seq<Byte>

  datatype Option<+T> = None | Some(value: T) {
    function GetOr(default: T): T {
      match this
      case Some(v) => v
      case None => default
    }

    predicate IsFailure() { None? }

    function PropagateFailure<U>(): Option<U>
      requires None?
    {
      None
    }

    function Extract(): T
      requires Some?
    {
      value
    }
  }

  predicate IsDigit(c: char) { '0' <= c <= '9' }
  predicate IsUpper(c: char) { 'A' <= c <= 'Z' }
  predicate IsLower(c: char) { 'a' <= c <= 'z' }
  predicate IsAlpha(c: char) { IsUpper(c) || IsLower(c) }
  predicate IsHexDigit(c: char) { IsDigit(c) || 'a' <= c <= 'f' || 'A' <= c <= 'F' }

  predicate AllDigits(s: Bytes) { forall i :: 0 <= i < |s| ==> IsDigit(s[i]) }
  predicate AllHex(s: Bytes) { forall i :: 0 <= i < |s| ==> IsHexDigit(s[i]) }

  // ---------------------------------------------------------------------
  // strtolower / strtoupper: ASCII letters only, every other byte as is

  function LowerChar(c: Byte): (r: Byte)
    ensures !IsUpper(r) && (IsAlpha(r) <==> IsAlpha(c))
    ensures !IsAlpha(c) ==> r == c
  {
    if IsUpper(c) then (c as int + 32) as char else c
  }

  function UpperChar(c: Byte): (r: Byte)
    ensures !IsLower(r) && (IsAlpha(r) <==> IsAlpha(c))
    ensures !IsAlpha(c) ==> r == c
  {
    if IsLower(c) then (c as int - 32) as char else c
  }

  function Lower(s: Bytes): (r: Bytes)
    ensures |r| == |s| && forall i :: 0 <= i < |s| ==> r[i] == LowerChar(s[i])
  {
    if s == [] then [] else [LowerChar(s[0])] + Lower(s[1..])
  }

  function Upper(s: Bytes): (r: Bytes)
    ensures |r| == |s| && forall i :: 0 <= i < |s| ==> r[i] == UpperChar(s[i])
  {
    if s == [] then [] else [UpperChar(s[0])] + Upper(s[1..])
  }

  lemma UpperConcat(a: Bytes, b: Bytes)
    ensures Upper(a + b) == Upper(a) + Upper(b)
  {
    assert Upper(a + b) == Upper(a) + Upper(b);
  }

  lemma LowerConcat(a: Bytes, b: Bytes)
    ensures Lower(a + b) == Lower(a) + Lower(b)
  {
    assert Lower(a + b) == Lower(a) + Lower(b);
  }

  // ---------------------------------------------------------------------
  // Hexadecimal: PHP's hexdec and dechex

  function HexDigitValue(c: char): (v: nat)
    requires IsHexDigit(c)
    ensures v < 16
  {
    if IsDigit(c) then c as int - '0' as int
    else if 'a' <= c <= 'f' then c as int - 'a' as int + 10
    else c as int - 'A' as int + 10
  }

  /** The lower-case hexadecimal digit of a value below 16. */
  function LowerHexDigit(v: nat): (c: Byte)
    requires v < 16
    ensures IsHexDigit(c) && HexDigitValue(c) == v && !IsUpper(c)
  {
    if v < 10 then ('0' as int + v) as char else ('a' as int + v - 10) as char
  }

  /** The upper-case hexadecimal digit of a value below 16. */
  function UpperHexDigit(v: nat): (c: Byte)
    requires v < 16
    ensures IsHexDigit(c) && HexDigitValue(c) == v && !IsLower(c)
    ensures c == UpperChar(LowerHexDigit(v))
  {
    if v < 10 then ('0' as int + v) as char else ('A' as int + v - 10) as char
  }

  /** dechex: lower-case hexadecimal without leading zeros ("0" for zero). */
  function Dechex(n: nat): (r: Bytes)
    ensures |r| >= 1 && AllHex(r)
    ensures forall i :: 0 <= i < |r| ==> !IsUpper(r[i])
    ensures n > 0 ==> r[0] != '0'
    ensures n < 16 <==> |r| == 1
    decreases n
  {
    if n < 16 then [LowerHexDigit(n)] else Dechex(n / 16) + [LowerHexDigit(n % 16)]
  }

  /** hexdec: the hexadecimal digits of s read most significant first; every
      other byte is skipped, as PHP does. */
  function Hexdec(s: Bytes): nat
    decreases |s|
  {
    if s == [] then 0
    else if IsHexDigit(s[|s| - 1]) then Hexdec(s[..|s| - 1]) * 16 + HexDigitValue(s[|s| - 1])
    else Hexdec(s[..|s| - 1])
  }

  /** Two upper-case hexadecimal digits of a byte, as in a %HH triplet. */
  function Hex2(c: Byte): (r: Bytes)
    ensures |r| == 2 && AllHex(r)
  {
    [UpperHexDigit(c as int / 16), UpperHexDigit(c as int % 16)]
  }

  /** hexdec reads back the value dechex wrote. */
  lemma {:induction false} HexdecDechex(n: nat)
    ensures Hexdec(Dechex(n)) == n
    decreases n
  {
    if n >= 16 {
      HexdecDechex(n / 16);
      var d := Dechex(n / 16) + [LowerHexDigit(n % 16)];
      assert d[..|d| - 1] == Dechex(n / 16);
    }
  }

  /** Upper-casing digits does not change the value hexdec reads. */
  lemma {:induction false} HexdecUpper(s: Bytes)
    ensures Hexdec(Upper(s)) == Hexdec(s)
    decreases |s|
  {
    if s != [] {
      var u := Upper(s);
      assert u[..|u| - 1] == Upper(s[..|s| - 1]);
      HexdecUpper(s[..|s| - 1]);
    }
  }

  lemma {:induction false} HexdecConcatDigit(s: Bytes, c: Byte)
    requires IsHexDigit(c)
    ensures Hexdec(s + [c]) == Hexdec(s) * 16 + HexDigitValue(c)
  {
    var t := s + [c];
    assert t[..|t| - 1] == s;
  }

  /** At most two digits read a value that fits a byte, as chr() needs. */
  lemma HexdecSmall(s: Bytes)
    requires |s| <= 2
    ensures Hexdec(s) < 256
  {
    if |s| > 0 {
      var t := s[..|s| - 1];
      if |t| > 0 {
        assert t[..|t| - 1] == [];
      }
      assert Hexdec(t) < 16;
    }
  }

  lemma Hex2Value(c: Byte)
    ensures Hexdec(Hex2(c)) == c as int
  {
    var h := Hex2(c);
    HexdecConcatDigit([h[0]], h[1]);
    HexdecConcatDigit([], h[0]);
    assert [h[0]] == [] + [h[0]];
    assert h == [h[0]] + [h[1]];
  }

  /** For a byte of at least 0x10, strtoupper(dechex(ord(c))) is the
      two-digit triplet body. */
  lemma {:induction false} UpperDechexIsHex2(c: Byte)
    requires c as int >= 16
    ensures Upper(Dechex(c as int)) == Hex2(c)
  {
    var n := c as int;
    assert n / 16 < 16;
    assert Dechex(n) == Dechex(n / 16) + [LowerHexDigit(n % 16)];
    assert Dechex(n / 16) == [LowerHexDigit(n / 16)];
    UpperConcat([LowerHexDigit(n / 16)], [LowerHexDigit(n % 16)]);
  }

  // ---------------------------------------------------------------------
  // Decimal: the (int) cast of a digit string and PHP's int-to-string

  function DigitChar(v: nat): (c: Byte)
    requires v < 10
    ensures IsDigit(c)
  {
    ('0' as int + v) as char
  }

  /** The value of a string of decimal digits. */
  function DecimalValue(s: Bytes): nat
    requires AllDigits(s)
    decreases |s|
  {
    if s == [] then 0 else DecimalValue(s[..|s| - 1]) * 10 + (s[|s| - 1] as int - '0' as int)
  }

  /** The decimal text of a non-negative integer, without leading zeros. */
  function DecimalString(n: nat): (r: Bytes)
    ensures |r| >= 1 && AllDigits(r)
    decreases n
  {
    if n < 10 then [DigitChar(n)] else DecimalString(n / 10) + [DigitChar(n % 10)]
  }

  lemma {:induction false} DecimalRoundTrip(n: nat)
    ensures DecimalValue(DecimalString(n)) == n
    decreases n
  {
    if n >= 10 {
      DecimalRoundTrip(n / 10);
      var d := DecimalString(n);
      assert d[..|d| - 1] == DecimalString(n / 10);
    }
  }

  /** Slicing a concatenation inside its first part. */
  lemma SliceConcat(a: Bytes, b: Bytes, k: nat)
    requires k <= |a|
    ensures (a + b)[..k] == a[..k] && (a + b)[k..] == a[k..] + b
  {
  }

  // ---------------------------------------------------------------------
  // Counting, searching and splitting

  /** substr_count for a one-byte needle. */
  function Count(s: Bytes, c: Byte): nat
    decreases |s|
  {
    if s == [] then 0 else (if s[0] == c then 1 else 0) + Count(s[1..], c)
  }

  lemma {:induction false} CountConcat(a: Bytes, b: Bytes, c: Byte)
    ensures Count(a + b, c) == Count(a, c) + Count(b, c)
    decreases |a|
  {
    if a != [] {
      assert (a + b)[1..] == a[1..] + b;
      assert (a + b)[0] == a[0];
      CountConcat(a[1..], b, c);
    } else {
      assert a + b == b;
    }
  }

  lemma {:induction false} CountZero(s: Bytes, c: Byte)
    ensures Count(s, c) == 0 <==> c !in s
    decreases |s|
  {
    if s != [] {
      CountZero(s[1..], c);
      assert s == [s[0]] + s[1..];
    }
  }

  /** strpos($s, $c, $from) for a one-byte needle. */
  function IndexOfChar(s: Bytes, c: Byte, from: nat): (r: Option<nat>)
    ensures r.Some? ==> from <= r.value < |s| && s[r.value] == c
    ensures r.Some? ==> forall j :: from <= j < r.value ==> s[j] != c
    ensures r.None? ==> forall j :: from <= j < |s| ==> s[j] != c
    decreases |s| - from
  {
    if from >= |s| then None else if s[from] == c then Some(from) else IndexOfChar(s, c, from + 1)
  }

  /** strrpos($s, $c) for a one-byte needle. */
  function LastIndexOfChar(s: Bytes, c: Byte): (r: Option<nat>)
    ensures r.Some? ==> r.value < |s| && s[r.value] == c
    ensures r.Some? ==> forall j :: r.value < j < |s| ==> s[j] != c
    ensures r.None? ==> c !in s
    decreases |s|
  {
    if s == [] then None
    else if s[|s| - 1] == c then Some(|s| - 1)
    else LastIndexOfChar(s[..|s| - 1], c)
  }

  /** A tail without c does not move the last c. */
  lemma {:induction false} LastIndexPastTail(s: Bytes, tail: Bytes, c: Byte)
    requires c !in tail
    ensures LastIndexOfChar(s + tail, c) == LastIndexOfChar(s, c)
    decreases |tail|
  {
    if tail != [] {
      var front := tail[..|tail| - 1];
      var u := s + tail;
      assert u[|u| - 1] == tail[|tail| - 1];
      assert u[..|u| - 1] == s + front;
      assert c !in front by {
        assert forall i :: 0 <= i < |front| ==> front[i] == tail[i];
      }
      LastIndexPastTail(s, front, c);
    } else {
      assert s + tail == s;
    }
  }

  predicate StartsWith(s: Bytes, prefix: Bytes) {
    |prefix| <= |s| && s[..|prefix|] == prefix
  }

  predicate OccursAt(s: Bytes, pat: Bytes, j: nat) {
    j + |pat| <= |s| && s[j..j + |pat|] == pat
  }

  /** strpos($s, $pat, $from) !== false, with the position found. */
  function IndexOf(s: Bytes, pat: Bytes, from: nat): (r: Option<nat>)
    requires |pat| > 0
    ensures r.Some? ==> from <= r.value && OccursAt(s, pat, r.value)
    ensures r.Some? ==> forall j: nat :: from <= j < r.value ==> !OccursAt(s, pat, j)
    ensures r.None? ==> forall j: nat :: from <= j ==> !OccursAt(s, pat, j)
    decreases |s| - from
  {
    if from + |pat| > |s| then None
    else if OccursAt(s, pat, from) then Some(from)
    else IndexOf(s, pat, from + 1)
  }

  predicate Contains(s: Bytes, pat: Bytes)
    requires |pat| > 0
  {
    IndexOf(s, pat, 0).Some?
  }

  /** explode($sep, $s) for a one-byte separator: the pieces between the
      separators, at least one. */
  function Explode(s: Bytes, sep: Byte): (r: seq<Bytes>)
    ensures |r| == Count(s, sep) + 1
    ensures forall k :: 0 <= k < |r| ==> sep !in r[k]
    decreases |s|
  {
    match IndexOfChar(s, sep, 0)
    case None =>
      CountZero(s, sep);
      [s]
    case Some(i) =>
      assert s == s[..i] + [s[i]] + s[i + 1..];
      CountConcat(s[..i] + [s[i]], s[i + 1..], sep);
      CountConcat(s[..i], [s[i]], sep);
      CountZero(s[..i], sep);
      [s[..i]] + Explode(s[i + 1..], sep)
  }

  /** implode($sep, $pieces). */
  function Implode(pieces: seq<Bytes>, sep: Byte): Bytes
    requires |pieces| >= 1
    decreases |pieces|
  {
    if |pieces| == 1 then pieces[0] else pieces[0] + [sep] + Implode(pieces[1..], sep)
  }

  /** Exploding what was imploded gives the pieces back, as long as no
      piece holds the separator. */
  lemma {:induction false} ExplodeImplode(pieces: seq<Bytes>, sep: Byte)
    requires |pieces| >= 1
    requires forall k :: 0 <= k < |pieces| ==> sep !in pieces[k]
    ensures Explode(Implode(pieces, sep), sep) == pieces
    decreases |pieces|
  {
    var p := pieces[0];
    if |pieces| == 1 {
      CountZero(p, sep);
      assert IndexOfChar(p, sep, 0).None?;
    } else {
      var rest := Implode(pieces[1..], sep);
      var s := p + [sep] + rest;
      assert IndexOfChar(s, sep, 0) == Some(|p|) by {
        IndexOfCharSkip(s, sep, |p|);
      }
      assert s[..|p|] == p;
      assert s[|p| + 1..] == rest;
      ExplodeImplode(pieces[1..], sep);
    }
  }

  lemma IndexOfCharSkip(s: Bytes, c: Byte, i: nat)
    requires i < |s| && s[i] == c
    requires forall j :: 0 <= j < i ==> s[j] != c
    ensures IndexOfChar(s, c, 0) == Some(i)
  {
    var r := IndexOfChar(s, c, 0);
    assert r.Some?;
    assert r.value == i;
  }

  // ---------------------------------------------------------------------
  // str_replace and str_repeat

  /** str_replace($pat, $rep, $s): every occurrence, scanning left to right
      and never re-reading replaced text. */
  function ReplaceAll(s: Bytes, pat: Bytes, rep: Bytes): Bytes
    requires |pat| > 0
    decreases |s|
  {
    if |s| < |pat| then s
    else if s[..|pat|] == pat then rep + ReplaceAll(s[|pat|..], pat, rep)
    else [s[0]] + ReplaceAll(s[1..], pat, rep)
  }

  /** Replacing one byte acts on each byte on its own. */
  lemma {:induction false} ReplaceByteConcat(a: Bytes, b: Bytes, c: Byte, rep: Bytes)
    ensures ReplaceAll(a + b, [c], rep) == ReplaceAll(a, [c], rep) + ReplaceAll(b, [c], rep)
    decreases |a|
  {
    if a != [] {
      assert (a + b)[1..] == a[1..] + b;
      assert (a + b)[..1] == a[..1] == [a[0]];
      ReplaceByteConcat(a[1..], b, c, rep);
    } else {
      assert a + b == b;
    }
  }

  lemma {:induction false} ReplaceByteAbsent(s: Bytes, c: Byte, rep: Bytes)
    requires c !in s
    ensures ReplaceAll(s, [c], rep) == s
    decreases |s|
  {
    if s != [] {
      assert s[..1] == [s[0]];
      ReplaceByteAbsent(s[1..], c, rep);
    }
  }

  /** Each replaced byte grows the string by |rep| - 1, for the two- and
      three-byte triplets the encoder writes. */
  lemma {:induction false} ReplaceByteLength(s: Bytes, c: Byte, rep: Bytes)
    ensures |rep| == 2 ==> |ReplaceAll(s, [c], rep)| == |s| + Count(s, c)
    ensures |rep| == 3 ==> |ReplaceAll(s, [c], rep)| == |s| + 2 * Count(s, c)
    decreases |s|
  {
    if s != [] {
      assert s[..1] == [s[0]];
      ReplaceByteLength(s[1..], c, rep);
    }
  }

  /** Replacing "::" acts on two pieces separately when no "::" straddles
      the point where they meet. */
  lemma {:induction false} ReplaceColonsConcat(a: Bytes, b: Bytes, rep: Bytes)
    requires !(|a| > 0 && |b| > 0 && a[|a| - 1] == ':' && b[0] == ':')
    ensures ReplaceAll(a + b, "::", rep) == ReplaceAll(a, "::", rep) + ReplaceAll(b, "::", rep)
    decreases |a|
  {
    if |a| == 0 {
      assert a + b == b;
    } else if |a| == 1 {
      assert a == [a[0]];
      ReplaceColonsSingle(a[0], b, rep);
    } else {
      var k := if a[..2] == "::" then 2 else 1;
      ReplaceColonsConcat(a[k..], b, rep);
      ReplaceStepConcat(a, b, "::", rep);
      var head := if k == 2 then rep else [a[0]];
      AppendAssoc(head, ReplaceAll(a[k..], "::", rep), ReplaceAll(b, "::", rep));
    }
  }

  lemma AppendAssoc(x: Bytes, y: Bytes, z: Bytes)
    ensures x + (y + z) == (x + y) + z
  {
  }

  /** The first step of the scan over a + b is the first step over a, when
      a holds at least the pattern's length. */
  lemma ReplaceStepConcat(a: Bytes, b: Bytes, pat: Bytes, rep: Bytes)
    requires 0 < |pat| <= |a|
    ensures a[..|pat|] == pat ==>
      ReplaceAll(a + b, pat, rep) == rep + ReplaceAll(a[|pat|..] + b, pat, rep) &&
      ReplaceAll(a, pat, rep) == rep + ReplaceAll(a[|pat|..], pat, rep)
    ensures a[..|pat|] != pat ==>
      ReplaceAll(a + b, pat, rep) == [a[0]] + ReplaceAll(a[1..] + b, pat, rep) &&
      ReplaceAll(a, pat, rep) == [a[0]] + ReplaceAll(a[1..], pat, rep)
  {
    ReplaceStep(a, pat, rep);
    if a[..|pat|] == pat {
      ReplaceStepConcatMatch(a, b, pat, rep);
    } else {
      ReplaceStepConcatSkip(a, b, pat, rep);
    }
  }

  lemma ReplaceStepConcatMatch(a: Bytes, b: Bytes, pat: Bytes, rep: Bytes)
    requires 0 < |pat| <= |a| && a[..|pat|] == pat
    ensures ReplaceAll(a + b, pat, rep) == rep + ReplaceAll(a[|pat|..] + b, pat, rep)
  {
    var ab := a + b;
    assert ab[..|pat|] == pat;
    assert ab[|pat|..] == a[|pat|..] + b;
    ReplaceStep(ab, pat, rep);
  }

  lemma ReplaceStepConcatSkip(a: Bytes, b: Bytes, pat: Bytes, rep: Bytes)
    requires 0 < |pat| <= |a| && a[..|pat|] != pat
    ensures ReplaceAll(a + b, pat, rep) == [a[0]] + ReplaceAll(a[1..] + b, pat, rep)
  {
    var ab := a + b;
    assert ab[..|pat|] == a[..|pat|];
    assert ab[1..] == a[1..] + b;
    ReplaceStep(ab, pat, rep);
  }

  /** One step of the left-to-right scan of ReplaceAll. */
  lemma ReplaceStep(s: Bytes, pat: Bytes, rep: Bytes)
    requires 0 < |pat| <= |s|
    ensures s[..|pat|] == pat ==> ReplaceAll(s, pat, rep) == rep + ReplaceAll(s[|pat|..], pat, rep)
    ensures s[..|pat|] != pat ==> ReplaceAll(s, pat, rep) == [s[0]] + ReplaceAll(s[1..], pat, rep)
  {
  }

  lemma ReplaceColonsSingle(x: Byte, b: Bytes, rep: Bytes)
    requires !(|b| > 0 && x == ':' && b[0] == ':')
    ensures ReplaceAll([x] + b, "::", rep) == [x] + ReplaceAll(b, "::", rep)
  {
    var s := [x] + b;
    assert s[1..] == b;
    if |s| >= 2 {
      assert s[..2] != "::" by {
        assert s[0] == x && s[1] == b[0];
      }
    }
  }

  lemma ReplaceColonsNone(s: Bytes, rep: Bytes)
    requires forall j :: 0 <= j < |s| - 1 ==> !(s[j] == ':' && s[j + 1] == ':')
    ensures ReplaceAll(s, "::", rep) == s
    decreases |s|
  {
    if |s| >= 2 {
      assert s[..2] != "::" by { assert !(s[0] == ':' && s[1] == ':'); }
      ReplaceColonsNone(s[1..], rep);
    }
  }

  /** str_repeat($s, $n); PHP 5 returns NULL for a negative count, which
      the callers then use as the empty string. */
  function Repeat(s: Bytes, n: int): Bytes
    decreases if n < 0 then 0 else n
  {
    if n <= 0 then [] else s + Repeat(s, n - 1)
  }
}
