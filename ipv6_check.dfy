/** SplitV64 and checkIPv6 of Net_IPv6 (Net_IPv6/IPv6.php:144-203): the
    expanded address is cut into its hexadecimal part and an IPv4 tail,
    and the address is accepted by counting the well-formed groups of each. */
module IPv6Check {
  import opened Text
  import opened IPv6

  // ---------------------------------------------------------------------
  // One hexadecimal group

  /** How many '0' bytes s starts with. */
  function LeadingZeros(s: Bytes): (n: nat)
    ensures n <= |s| && forall i :: 0 <= i < n ==> s[i] == '0'
    ensures n < |s| ==> s[n] != '0'
  {
    if s != [] && s[0] == '0' then 1 + LeadingZeros(s[1..]) else 0
  }

  /** The text a pattern ending in '$' sees: '$' also matches just before a
      final line feed. */
  function BeforeFinalNewline(s: Bytes): Bytes {
    if s != [] && s[|s| - 1] == '\n' then s[..|s| - 1] else s
  }

  function Min(a: int, b: int): int { if a <= b then a else b }

  /** How many leading zeros preg_replace("/^[0]{1,3}(.*[0-9a-fA-F])$/",
      "\\1", p) removes. The pattern needs a hexadecimal digit last, no line
      feed before it ('.' takes none) and one character at least after the
      zeros; it removes up to three zeros. */
  function ZerosStripped(p: Bytes): (n: nat)
    ensures n <= 3 && n <= |p| && forall i :: 0 <= i < n ==> p[i] == '0'
    ensures n > 0 ==> n < |p|
  {
    var body := BeforeFinalNewline(p);
    if '\n' !in body && body != [] && IsHexDigit(body[|body| - 1]) then
      assert forall i :: 0 <= i < |body| ==> body[i] == p[i];
      Min(Min(LeadingZeros(body), 3), |body| - 1)
    else 0
  }

  /** The group with the zeros the pattern removes taken off. */
  function StripZeros(p: Bytes): Bytes {
    p[ZerosStripped(p)..]
  }

  /** The test of one group in checkIPv6: its hexdec value fits 16 bits and
      the stripped group, upper-cased, is the upper-cased dechex of that
      value. (The `>= 0` conjunct holds for every group that passes the
      other two, and `==` is the strict comparison.) */
  predicate WellFormedGroup(p: Bytes) {
    Hexdec(p) <= 0xFFFF && Upper(StripZeros(p)) == Upper(Dechex(Hexdec(p)))
  }

  /** A group as the address format means it: hexadecimal digits only,
      a value of 16 bits, and at most three zeros before the value's own
      digits. */
  predicate CanonicalGroup(p: Bytes) {
    1 <= |p| && AllHex(p) && Hexdec(p) <= 0xFFFF && |p| <= |Dechex(Hexdec(p))| + 3
  }

  /** n zero bytes. */
  function ZeroRun(n: nat): (r: Bytes)
    ensures |r| == n && forall i :: 0 <= i < n ==> r[i] == '0'
  {
    seq(n, i => '0')
  }

  lemma UpperHexFacts(c: Byte)
    ensures IsHexDigit(UpperChar(c)) <==> IsHexDigit(c)
    ensures UpperChar(c) == '0' <==> c == '0'
    ensures IsHexDigit(c) ==> UpperChar(c) == UpperHexDigit(HexDigitValue(c))
  {
  }

  lemma UpperSuffix(s: Bytes, m: nat)
    requires m <= |s|
    ensures Upper(s[m..]) == Upper(s)[m..]
  {
  }

  /** A string of hexadecimal digits is, up to case, the dechex of its value
      with zeros in front. */
  lemma {:induction false} HexPadded(s: Bytes)
    requires s != [] && AllHex(s)
    ensures Padded(s)
    decreases |s|
  {
    var t := s[..|s| - 1];
    assert s == t + [s[|s| - 1]];
    if t != [] {
      HexPadded(t);
    }
    PadAppend(t, s[|s| - 1]);
  }

  /** Up to case, s is the dechex of its value with zeros in front. */
  predicate Padded(s: Bytes) {
    |Dechex(Hexdec(s))| <= |s| &&
    Upper(s) == ZeroRun(|s| - |Dechex(Hexdec(s))|) + Upper(Dechex(Hexdec(s)))
  }

  /** One more hexadecimal digit keeps a string padded. */
  lemma PadAppend(t: Bytes, c: Byte)
    requires IsHexDigit(c) && (t != [] ==> Padded(t))
    ensures Padded(t + [c])
  {
    var uv := Upper(Dechex(Hexdec(t + [c])));
    if t == [] || Hexdec(t) == 0 {
      PadLeading(t, c);
    } else {
      PadFollowing(t, c);
    }
    assert |Dechex(Hexdec(t + [c]))| == |uv|;
  }

  /** The digits so far, upper-cased, and the value they read. */
  lemma DigitAppended(t: Bytes, c: Byte)
    requires IsHexDigit(c)
    ensures Hexdec(t + [c]) == Hexdec(t) * 16 + HexDigitValue(c)
    ensures Upper(t + [c]) == Upper(t) + [UpperHexDigit(HexDigitValue(c))]
  {
    HexdecConcatDigit(t, c);
    UpperConcat(t, [c]);
    UpperHexFacts(c);
  }

  /** A digit after nothing but zeros. */
  lemma PadLeading(t: Bytes, c: Byte)
    requires IsHexDigit(c) && (t != [] ==> Padded(t))
    requires t == [] || Hexdec(t) == 0
    ensures var uv := Upper(Dechex(Hexdec(t + [c])));
      Upper(t + [c]) == ZeroRun(|t|) + uv && |uv| == 1
  {
    var d := HexDigitValue(c);
    var x := UpperHexDigit(d);
    var v := Hexdec(t + [c]);
    DigitAppended(t, c);
    assert Upper(Dechex(v)) == [x] by {
      assert v == d;
      DechexDigit(v);
    }
    if t != [] {
      var z := ZeroRun(|t| - |Dechex(0)|);
      assert Upper(Dechex(0)) == ['0'] by {
        DechexDigit(0);
      }
      PadZero(Upper(t), z, x);
    }
  }

  /** A digit after the digits of a non-zero value. */
  lemma PadFollowing(t: Bytes, c: Byte)
    requires IsHexDigit(c) && t != [] && Padded(t) && Hexdec(t) > 0
    ensures var uv := Upper(Dechex(Hexdec(t + [c])));
      Upper(t + [c]) == ZeroRun(|t| + 1 - |uv|) + uv && |uv| <= |t| + 1
  {
    var d := HexDigitValue(c);
    var x := UpperHexDigit(d);
    var v := Hexdec(t + [c]);
    var a := Hexdec(t);
    var ua := Upper(Dechex(a));
    var uv := Upper(Dechex(v));
    var z := ZeroRun(|t| - |Dechex(a)|);
    DigitAppended(t, c);
    assert uv == ua + [x] by {
      DechexStep(v, a, d);
    }
    PadStep(Upper(t), z, ua, uv, x);
  }

  /** The dechex of a value below 16 is its one digit. */
  lemma DechexDigit(d: nat)
    requires d < 16
    ensures Upper(Dechex(d)) == [UpperHexDigit(d)]
  {
    assert Dechex(d) == [LowerHexDigit(d)];
  }

  /** One more digit after a non-zero value: dechex gains that digit. */
  lemma DechexStep(v: nat, a: nat, d: nat)
    requires a > 0 && d < 16 && v == a * 16 + d
    ensures Upper(Dechex(v)) == Upper(Dechex(a)) + [UpperHexDigit(d)]
  {
    assert v / 16 == a && v % 16 == d;
    assert Dechex(v) == Dechex(a) + [LowerHexDigit(d)];
    UpperConcat(Dechex(a), [LowerHexDigit(d)]);
  }

  /** All zeros so far, then one digit. */
  lemma PadZero(ut: Bytes, z: Bytes, x: Byte)
    requires z == ZeroRun(|z|) && ut == z + ['0']
    ensures ut + [x] == ZeroRun(|ut|) + [x]
  {
    assert ut == ZeroRun(|ut|);
  }

  /** Zeros, then the digits of a non-zero value, then one more digit. */
  lemma PadStep(ut: Bytes, z: Bytes, ua: Bytes, uv: Bytes, x: Byte)
    requires ut == z + ua && uv == ua + [x]
    ensures ut + [x] == z + uv && |uv| == |ua| + 1
  {
    AppendAssoc(z, ua, [x]);
  }

  /** The group test of checkIPv6 accepts exactly the canonical groups. */
  lemma GroupIffCanonical(p: Bytes)
    ensures WellFormedGroup(p) <==> CanonicalGroup(p)
  {
    if WellFormedGroup(p) {
      WellFormedIsCanonical(p);
    }
    if CanonicalGroup(p) {
      CanonicalIsWellFormed(p);
    }
  }

  lemma WellFormedIsCanonical(p: Bytes)
    requires WellFormedGroup(p)
    ensures CanonicalGroup(p)
  {
    var n := ZerosStripped(p);
    var ud := Upper(Dechex(Hexdec(p)));
    assert Upper(p)[n..] == ud by {
      UpperSuffix(p, n);
    }
    assert AllHex(ud) by {
      forall i | 0 <= i < |ud|
        ensures IsHexDigit(ud[i])
      {
        UpperHexFacts(Dechex(Hexdec(p))[i]);
      }
    }
    SuffixHex(p, n, ud);
  }

  /** Zeros, then a string whose upper-case form is hexadecimal: all hex. */
  lemma SuffixHex(p: Bytes, n: nat, ud: Bytes)
    requires n <= |p| && Upper(p)[n..] == ud && AllHex(ud)
    requires forall i :: 0 <= i < n ==> p[i] == '0'
    ensures AllHex(p)
  {
    forall i | n <= i < |p|
      ensures IsHexDigit(p[i])
    {
      assert Upper(p)[i] == ud[i - n];
      UpperHexFacts(p[i]);
    }
  }

  lemma CanonicalIsWellFormed(p: Bytes)
    requires CanonicalGroup(p)
    ensures WellFormedGroup(p)
  {
    var dv := Dechex(Hexdec(p));
    var m := |p| - |dv|;
    assert Upper(p) == ZeroRun(m) + Upper(dv) && m >= 0 by {
      HexPadded(p);
    }
    assert ZerosStripped(p) == m by {
      PadIsZeros(p, m, Upper(dv));
      assert m < |p| - 1 ==> p[m] != '0' by {
        if m < |p| - 1 {
          PadEndsZeros(p, m, dv);
        }
      }
      StrippedIsPad(p, m);
    }
    UpperSuffix(p, m);
  }

  lemma PadIsZeros(p: Bytes, m: nat, ud: Bytes)
    requires m <= |p| && Upper(p) == ZeroRun(m) + ud
    ensures forall i :: 0 <= i < m ==> p[i] == '0'
  {
    forall i | 0 <= i < m
      ensures p[i] == '0'
    {
      assert Upper(p)[i] == '0';
      UpperHexFacts(p[i]);
    }
  }

  /** After the zeros in front comes the first digit of dechex, which is
      not '0' unless the value is 0 and it is the last digit. */
  lemma PadEndsZeros(p: Bytes, m: nat, dv: Bytes)
    requires dv == Dechex(Hexdec(p)) && m == |p| - |dv| && m < |p| - 1
    requires Upper(p) == ZeroRun(m) + Upper(dv)
    ensures p[m] != '0'
  {
    assert Upper(p)[m] == Upper(dv)[0];
    UpperHexFacts(p[m]);
    UpperHexFacts(dv[0]);
  }

  /** The pattern strips exactly the m zeros in front of a digit string. */
  lemma StrippedIsPad(p: Bytes, m: nat)
    requires 1 <= |p| && AllHex(p) && m <= 3 && m < |p|
    requires forall i :: 0 <= i < m ==> p[i] == '0'
    requires m < |p| - 1 ==> p[m] != '0'
    ensures ZerosStripped(p) == m
  {
    assert BeforeFinalNewline(p) == p;
    assert '\n' !in p;
    var lz := LeadingZeros(p);
    assert lz >= m;
    assert lz > m ==> m == |p| - 1;
  }

  /** A group of one to four hexadecimal digits is accepted, leading zeros
      or not. */
  lemma ShortGroupCanonical(p: Bytes)
    requires 1 <= |p| <= 4 && AllHex(p)
    ensures CanonicalGroup(p) && WellFormedGroup(p)
  {
    HexdecBelow(p);
    Pow16Small(|p|);
    GroupIffCanonical(p);
  }

  /** n digits read a value below 16^n. */
  lemma {:induction false} HexdecBelow(s: Bytes)
    ensures Hexdec(s) < Pow16(|s|)
    decreases |s|
  {
    if s != [] {
      HexdecBelow(s[..|s| - 1]);
    }
  }

  lemma Pow16Small(n: nat)
    requires n <= 4
    ensures Pow16(n) <= 0x10000
  {
    if n == 0 {
    } else if n == 1 {
      assert Pow16(1) == 16;
    } else if n == 2 {
      assert Pow16(2) == 0x100;
    } else if n == 3 {
      assert Pow16(3) == 0x1000;
    } else {
      assert Pow16(4) == 0x10000;
    }
  }

  function Pow16(n: nat): (r: nat)
    ensures r >= 1
  {
    if n == 0 then 1 else 16 * Pow16(n - 1)
  }

  // ---------------------------------------------------------------------
  // One piece of the dotted quad

  /** preg_match("/^\d{1,3}$/", q): one to three digits, '$' allowing a
      final line feed after them. */
  predicate QuadPattern(q: Bytes) {
    var d := BeforeFinalNewline(q);
    1 <= |d| <= 3 && AllDigits(d)
  }

  /** The digits q starts with. */
  function LeadingDigits(q: Bytes): (r: Bytes)
    ensures AllDigits(r) && |r| <= |q| && r == q[..|r|]
    ensures |r| < |q| ==> !IsDigit(q[|r|])
  {
    if q != [] && IsDigit(q[0]) then [q[0]] + LeadingDigits(q[1..]) else []
  }

  /** (integer)$q on a piece that starts with a digit: the value of its
      leading digits. A piece that starts otherwise fails QuadPattern, so
      the value PHP reads for it does not change the outcome. */
  function Intval(q: Bytes): nat {
    DecimalValue(LeadingDigits(q))
  }

  /** The test of one dotted-quad piece in checkIPv6. (As for the groups,
      the `>= 0` conjunct holds whenever the other two do.) */
  predicate WellFormedQuad(q: Bytes) {
    Intval(q) <= 255 && QuadPattern(q)
  }

  /** A piece as the address format means it: one to three decimal digits
      with a value of at most 255. */
  predicate CanonicalQuad(q: Bytes) {
    1 <= |q| <= 3 && AllDigits(q) && DecimalValue(q) <= 255
  }

  lemma {:induction false} LeadingDigitsAre(q: Bytes, d: Bytes)
    requires AllDigits(d) && |d| <= |q| && q[..|d|] == d
    requires |d| < |q| ==> !IsDigit(q[|d|])
    ensures LeadingDigits(q) == d
    decreases |d|
  {
    if d != [] {
      assert q[1..][..|d| - 1] == d[1..];
      LeadingDigitsAre(q[1..], d[1..]);
    }
  }

  /** The piece test accepts exactly the canonical pieces, with or without
      one line feed after them. */
  lemma QuadIffCanonical(q: Bytes)
    ensures WellFormedQuad(q) <==> CanonicalQuad(BeforeFinalNewline(q))
  {
    var d := BeforeFinalNewline(q);
    if 1 <= |d| <= 3 && AllDigits(d) {
      assert q[..|d|] == d;
      LeadingDigitsAre(q, d);
    }
  }

  /** Every byte value written in decimal is accepted as a piece. */
  lemma ByteQuad(n: nat)
    requires n <= 255
    ensures WellFormedQuad(DecimalString(n))
  {
    var q := DecimalString(n);
    DecimalShort(n);
    DecimalRoundTrip(n);
    assert BeforeFinalNewline(q) == q;
    QuadIffCanonical(q);
  }

  /** Below 1000 the decimal text has at most three digits. */
  lemma DecimalShort(n: nat)
    requires n < 1000
    ensures |DecimalString(n)| <= 3
  {
    if n >= 10 {
      var m := n / 10;
      assert m < 100;
      assert DecimalString(n) == DecimalString(m) + [DigitChar(n % 10)];
      if m >= 10 {
        assert m / 10 < 10;
        assert DecimalString(m) == DecimalString(m / 10) + [DigitChar(m % 10)];
      }
    }
  }

  // ---------------------------------------------------------------------
  // Counting

  /** How many of the pieces pass the test ok. */
  function CountPassing(pieces: seq<Bytes>, ok: Bytes -> bool): (n: nat)
    ensures n <= |pieces|
    ensures n == |pieces| <==> forall i :: 0 <= i < |pieces| ==> ok(pieces[i])
  {
    if pieces == [] then 0
    else CountPassing(pieces[..|pieces| - 1], ok) + (if ok(pieces[|pieces| - 1]) then 1 else 0)
  }

  /** Counting one piece more. */
  lemma CountPassingStep(pieces: seq<Bytes>, ok: Bytes -> bool, i: nat)
    requires i < |pieces|
    ensures CountPassing(pieces[..i + 1], ok) ==
            CountPassing(pieces[..i], ok) + (if ok(pieces[i]) then 1 else 0)
  {
    assert pieces[..i + 1][..i] == pieces[..i];
  }

  // ---------------------------------------------------------------------
  // SplitV64 and checkIPv6

  /** SplitV64: the address without its prefix, expanded; when it holds a
      '.', the byte at its last ':' (at offset 0 when there is none, as
      `$ip{false}` writes there) becomes '_' and the text is exploded at
      '_'; otherwise the expanded address and an empty IPv4 part. */
  function SplitV64(ip: Bytes): (r: seq<Bytes>)
    ensures |r| >= 2
    ensures '.' !in UncompressAddress(ip) ==> r == [UncompressAddress(ip), []]
  {
    var u := UncompressAddress(ip);
    if '.' in u then
      var pos := match LastIndexOfChar(u, ':') case Some(p) => p case None => 0;
      var marked := u[pos := '_'];
      assert marked[pos] == '_';
      CountZero(marked, '_');
      Explode(marked, '_')
    else
      [u, []]
  }

  /** With a '.' and no '_' in the expanded address, SplitV64 cuts it at its
      last ':' into the hexadecimal part and the IPv4 part. */
  lemma SplitAtLastColon(ip: Bytes, a: Bytes, b: Bytes)
    requires UncompressAddress(ip) == a + Colon + b
    requires ':' !in b && '.' in a + Colon + b && '_' !in a + Colon + b
    ensures SplitV64(ip) == [a, b]
  {
    var u := a + Colon + b;
    LastColonAt(a, b);
    assert u[|a| := '_'] == Implode([a, b], '_') by {
      MarkColon(a, b);
    }
    assert '_' !in a && '_' !in b by {
      PartsOf(a, b, '_');
    }
    ExplodeImplode([a, b], '_');
  }

  /** The last ':' of a + ":" + b when b has none. */
  lemma LastColonAt(a: Bytes, b: Bytes)
    requires ':' !in b
    ensures LastIndexOfChar(a + Colon + b, ':') == Some(|a|)
  {
    var v := a + Colon;
    assert v[|v| - 1] == ':';
    LastIndexPastTail(v, b, ':');
  }

  lemma MarkColon(a: Bytes, b: Bytes)
    ensures (a + Colon + b)[|a| := '_'] == Implode([a, b], '_')
  {
  }

  lemma PartsOf(a: Bytes, b: Bytes, c: Byte)
    requires c !in a + Colon + b
    ensures c !in a && c !in b
  {
    assert forall i :: 0 <= i < |a| ==> a[i] == (a + Colon + b)[i];
    assert forall i :: 0 <= i < |b| ==> b[i] == (a + Colon + b)[|a| + 1 + i];
  }

  /** PHP's empty() on a string: "" and "0". */
  predicate PhpEmpty(s: Bytes) {
    s == [] || s == "0"
  }

  /** What checkIPv6 answers. Six good groups and a bad IPv4 part make the
      function end without a return, which yields null: read here as false. */
  predicate IsIPv6Address(ip: Bytes) {
    var parts := SplitV64(RemoveNetmaskSpec(ip));
    var groups := CountPassing(Explode(parts[0], ':'), WellFormedGroup);
    !PhpEmpty(parts[0]) &&
    (groups == 8 ||
     (groups == 6 && !PhpEmpty(parts[1]) && CountPassing(Explode(parts[1], '.'), WellFormedQuad) == 4))
  }

  /** checkIPv6, counting the groups that pass in one loop and the IPv4
      pieces that pass in another. */
  method CheckIPv6(ip: Bytes) returns (ok: bool)
    ensures ok == IsIPv6Address(ip)
  {
    var addr := RemoveNetmaskSpec(ip);
    var ipPart := SplitV64(addr);
    if PhpEmpty(ipPart[0]) {
      return false;
    }
    var count := CountGroups(Explode(ipPart[0], ':'));
    if count == 8 {
      return true;
    } else if count == 6 && !PhpEmpty(ipPart[1]) {
      count := CountQuads(Explode(ipPart[1], '.'));
      if count == 4 {
        return true;
      }
      // no return in the source here: null
      return false;
    } else {
      return false;
    }
  }

  /** The first loop of checkIPv6: the hexadecimal groups that pass. */
  method CountGroups(ipv6: seq<Bytes>) returns (count: nat)
    ensures count == CountPassing(ipv6, WellFormedGroup)
  {
    count := 0;
    for i := 0 to |ipv6|
      invariant count == CountPassing(ipv6[..i], WellFormedGroup)
    {
      var dec := Hexdec(ipv6[i]);
      var hex := Upper(StripZeros(ipv6[i]));
      if dec <= 65535 && hex == Upper(Dechex(dec)) {
        count := count + 1;
      }
      CountPassingStep(ipv6, WellFormedGroup, i);
    }
    assert ipv6[..|ipv6|] == ipv6;
  }

  /** The second loop of checkIPv6: the IPv4 pieces that pass. */
  method CountQuads(ipv4: seq<Bytes>) returns (count: nat)
    ensures count == CountPassing(ipv4, WellFormedQuad)
  {
    count := 0;
    for i := 0 to |ipv4|
      invariant count == CountPassing(ipv4[..i], WellFormedQuad)
    {
      if Intval(ipv4[i]) <= 255 && QuadPattern(ipv4[i]) {
        count := count + 1;
      }
      CountPassingStep(ipv4, WellFormedQuad, i);
    }
    assert ipv4[..|ipv4|] == ipv4;
  }

  // ---------------------------------------------------------------------
  // What checkIPv6 accepts and rejects

  /** Any "/prefix" is cut off unchecked: the address before it decides. */
  lemma IgnoresPrefix(addr: Bytes, prefix: Bytes)
    requires '/' !in addr
    ensures IsIPv6Address(addr + ['/'] + prefix) == IsIPv6Address(addr)
  {
    NetmaskCut(addr, prefix);
  }

  /** A prefix with no address before it is rejected: the hexadecimal part
      is empty. */
  lemma RejectsBarePrefix(prefix: Bytes)
    ensures !IsIPv6Address(['/'] + prefix)
  {
    NetmaskCut([], prefix);
    assert ['/'] + prefix == [] + ['/'] + prefix;
  }

  predicate AllCanonical(groups: seq<Bytes>) {
    forall i :: 0 <= i < |groups| ==> CanonicalGroup(groups[i])
  }

  predicate AllCanonicalQuads(quads: seq<Bytes>) {
    forall i :: 0 <= i < |quads| ==> CanonicalQuad(quads[i])
  }

  predicate HexOrColon(s: Bytes) {
    forall i :: 0 <= i < |s| ==> IsHexDigit(s[i]) || s[i] == ':'
  }

  predicate DigitOrDot(s: Bytes) {
    forall i :: 0 <= i < |s| ==> IsDigit(s[i]) || s[i] == '.'
  }

  /** Canonical groups joined by ':': hexadecimal digits and single colons,
      a digit at each end. */
  lemma {:induction false} JoinedGroups(groups: seq<Bytes>)
    requires |groups| >= 1 && AllCanonical(groups)
    ensures var r := Implode(groups, ':');
      r != [] && HexOrColon(r) && NoDoubleColon(r) &&
      IsHexDigit(r[0]) && IsHexDigit(r[|r| - 1])
    decreases |groups|
  {
    if |groups| > 1 {
      JoinedGroups(groups[1..]);
      JoinHex(groups[0], Implode(groups[1..], ':'));
    }
  }

  lemma JoinHex(g: Bytes, rest: Bytes)
    requires 1 <= |g| && AllHex(g)
    requires rest != [] && HexOrColon(rest) && NoDoubleColon(rest)
    requires IsHexDigit(rest[0]) && IsHexDigit(rest[|rest| - 1])
    ensures var r := g + [':'] + rest;
      HexOrColon(r) && NoDoubleColon(r) && IsHexDigit(r[0]) && IsHexDigit(r[|r| - 1])
  {
    var r := g + [':'] + rest;
    forall j | 0 <= j < |r| - 1
      ensures !(r[j] == ':' && r[j + 1] == ':')
    {
      if j < |g| {
        assert r[j] == g[j];
      } else if j > |g| {
        assert r[j] == rest[j - |g| - 1] && r[j + 1] == rest[j - |g|];
      } else {
        assert r[j + 1] == rest[0];
      }
    }
  }

  /** Canonical pieces joined by '.': digits and dots, a dot among them
      when there are two pieces or more. */
  lemma {:induction false} JoinedQuads(quads: seq<Bytes>)
    requires |quads| >= 1 && AllCanonicalQuads(quads)
    ensures var r := Implode(quads, '.');
      r != [] && DigitOrDot(r) && IsDigit(r[|r| - 1]) && (|quads| >= 2 ==> '.' in r)
    decreases |quads|
  {
    if |quads| > 1 {
      JoinedQuads(quads[1..]);
      assert CanonicalQuad(quads[0]);
      DottedPair(quads[0], Implode(quads[1..], '.'));
    }
  }

  /** A quad, '.' and more quads: digits and dots ending in a digit. */
  lemma DottedPair(q: Bytes, rest: Bytes)
    requires AllDigits(q) && rest != [] && DigitOrDot(rest) && IsDigit(rest[|rest| - 1])
    ensures var r := q + ['.'] + rest;
      DigitOrDot(r) && IsDigit(r[|r| - 1]) && '.' in r
  {
    var r := q + ['.'] + rest;
    assert r[|q|] == '.';
    forall i | 0 <= i < |r|
      ensures IsDigit(r[i]) || r[i] == '.'
    {
      if i < |q| {
        assert r[i] == q[i];
      } else if i > |q| {
        assert r[i] == rest[i - |q| - 1];
      }
    }
  }

  lemma HexOrColonBytes(s: Bytes)
    requires HexOrColon(s)
    ensures '.' !in s && '_' !in s && '/' !in s
  {
    forall i | 0 <= i < |s|
      ensures s[i] != '.' && s[i] != '_' && s[i] != '/'
    {
    }
  }

  lemma DigitOrDotBytes(s: Bytes)
    requires DigitOrDot(s)
    ensures ':' !in s && '_' !in s
  {
    forall i | 0 <= i < |s|
      ensures s[i] != ':' && s[i] != '_'
    {
    }
  }

  /** Canonical groups joined by ':' explode back into themselves, all of
      them pass, and the text has no '.', no '_' and is not empty(). */
  lemma GroupsText(groups: seq<Bytes>)
    requires |groups| >= 2 && AllCanonical(groups)
    ensures var u := Implode(groups, ':');
      Explode(u, ':') == groups && CountPassing(groups, WellFormedGroup) == |groups| &&
      '.' !in u && '_' !in u && '/' !in u && !PhpEmpty(u)
  {
    var u := Implode(groups, ':');
    JoinedGroups(groups);
    HexOrColonBytes(u);
    assert u == groups[0] + [':'] + Implode(groups[1..], ':');
    assert u[|groups[0]|] == ':';
    assert forall k :: 0 <= k < |groups| ==> ':' !in groups[k];
    ExplodeImplode(groups, ':');
    forall i | 0 <= i < |groups|
      ensures WellFormedGroup(groups[i])
    {
      GroupIffCanonical(groups[i]);
    }
  }

  /** Canonical pieces joined by '.' explode back into themselves, all of
      them pass, and the text has a '.', no ':' and no '_'. */
  lemma QuadsText(quads: seq<Bytes>)
    requires |quads| >= 2 && AllCanonicalQuads(quads)
    ensures var b := Implode(quads, '.');
      Explode(b, '.') == quads && CountPassing(quads, WellFormedQuad) == |quads| &&
      '.' in b && ':' !in b && '_' !in b && !PhpEmpty(b)
  {
    JoinedQuads(quads);
    DigitOrDotBytes(Implode(quads, '.'));
    assert forall k :: 0 <= k < |quads| ==> '.' !in quads[k];
    ExplodeImplode(quads, '.');
    forall i | 0 <= i < |quads|
      ensures WellFormedQuad(quads[i])
    {
      assert BeforeFinalNewline(quads[i]) == quads[i];
      QuadIffCanonical(quads[i]);
    }
  }

  lemma ColonJoin(a: Bytes, b: Bytes)
    requires '_' !in a && '_' !in b && '.' in b
    ensures '_' !in a + Colon + b && '.' in a + Colon + b
  {
    var u := a + Colon + b;
    assert forall i :: 0 <= i < |u| ==>
      u[i] == (if i < |a| then a[i] else if i == |a| then ':' else b[i - |a| - 1]);
    var j :| 0 <= j < |b| && b[j] == '.';
    assert u[|a| + 1 + j] == '.';
  }

  /** The expanded address is eight canonical groups: accepted. */
  lemma AcceptsGroups(ip: Bytes, groups: seq<Bytes>)
    requires |groups| == 8 && AllCanonical(groups)
    requires UncompressAddress(RemoveNetmaskSpec(ip)) == Implode(groups, ':')
    ensures IsIPv6Address(ip)
  {
    GroupsText(groups);
  }

  /** The expanded address is six canonical groups, ':' and four canonical
      dotted pieces: accepted. */
  lemma AcceptsDottedGroups(ip: Bytes, groups: seq<Bytes>, quads: seq<Bytes>)
    requires |groups| == 6 && AllCanonical(groups)
    requires |quads| == 4 && AllCanonicalQuads(quads)
    requires UncompressAddress(RemoveNetmaskSpec(ip)) ==
             Implode(groups, ':') + Colon + Implode(quads, '.')
    ensures IsIPv6Address(ip)
  {
    var a := Implode(groups, ':');
    var b := Implode(quads, '.');
    GroupsText(groups);
    QuadsText(quads);
    ColonJoin(a, b);
    SplitAtLastColon(RemoveNetmaskSpec(ip), a, b);
  }

  /** A byte other than ':' in neither side is not in their join. */
  lemma JoinBytes(a: Bytes, b: Bytes, c: Byte)
    requires c != ':' && c !in a && c !in b
    ensures c !in a + Colon + b
  {
    var u := a + Colon + b;
    assert forall i :: 0 <= i < |u| ==>
      u[i] == (if i < |a| then a[i] else if i == |a| then ':' else b[i - |a| - 1]);
  }

  lemma AllCanonicalConcat(a: seq<Bytes>, b: seq<Bytes>)
    requires AllCanonical(a) && AllCanonical(b)
    ensures AllCanonical(a + b)
  {
    assert forall i :: 0 <= i < |a + b| ==> (a + b)[i] == (if i < |a| then a[i] else b[i - |a|]);
  }

  lemma ZerosCanonical(k: nat)
    ensures AllCanonical(Zeros(k))
  {
    ShortGroupCanonical("0");
  }

  /** Without "::" Uncompress leaves the address as it is. */
  lemma NoGapUncompressed(s: Bytes)
    requires NoDoubleColon(s) && '/' !in s
    ensures UncompressAddress(s) == s
  {
    forall j: nat
      ensures !OccursAt(s, Gap, j)
    {
      GapBytes(s, j);
    }
    assert !Contains(s, Gap);
  }

  /** An address followed by nothing or by a "/prefix". */
  lemma PrefixCut(a: Bytes, rest: Bytes)
    requires '/' !in a && (rest == [] || rest[0] == '/')
    ensures RemoveNetmaskSpec(a + rest) == a
  {
    if rest != [] {
      assert a + rest == a + ['/'] + rest[1..];
      NetmaskCut(a, rest[1..]);
    } else {
      assert a + rest == a;
    }
  }

  /** Joining at a ':' keeps single colons when the left side ends in a
      digit and the right side has no ':'. */
  lemma ColonJoinSingle(a: Bytes, b: Bytes)
    requires a != [] && NoDoubleColon(a) && a[|a| - 1] != ':' && ':' !in b
    ensures NoDoubleColon(a + Colon + b)
  {
    var u := a + Colon + b;
    forall j | 0 <= j < |u| - 1
      ensures !(u[j] == ':' && u[j + 1] == ':')
    {
      if j < |a| - 1 {
        assert u[j] == a[j] && u[j + 1] == a[j + 1];
      } else if j == |a| - 1 {
        assert u[j] == a[j];
      } else {
        assert u[j + 1] == b[j - |a|];
      }
    }
  }

  /** Eight canonical groups, with or without a prefix, are accepted. */
  lemma AcceptsFullForm(groups: seq<Bytes>, rest: Bytes)
    requires |groups| == 8 && AllCanonical(groups)
    requires rest == [] || rest[0] == '/'
    ensures IsIPv6Address(Implode(groups, ':') + rest)
  {
    var a := Implode(groups, ':');
    JoinedGroups(groups);
    HexOrColonBytes(a);
    PrefixCut(a, rest);
    NoGapUncompressed(a);
    AcceptsGroups(a + rest, groups);
  }

  /** Six canonical groups and a dotted quad, with or without a prefix, are
      accepted. */
  lemma AcceptsFullDotted(groups: seq<Bytes>, quads: seq<Bytes>, rest: Bytes)
    requires |groups| == 6 && AllCanonical(groups)
    requires |quads| == 4 && AllCanonicalQuads(quads)
    requires rest == [] || rest[0] == '/'
    ensures IsIPv6Address(Implode(groups, ':') + Colon + Implode(quads, '.') + rest)
  {
    var a := Implode(groups, ':');
    var b := Implode(quads, '.');
    var u := a + Colon + b;
    JoinedGroups(groups);
    JoinedQuads(quads);
    DigitOrDotBytes(b);
    ColonJoinSingle(a, b);
    assert '/' !in u by {
      HexOrColonBytes(a);
      assert '/' !in b by {
        assert forall i :: 0 <= i < |b| ==> b[i] != '/';
      }
      JoinBytes(a, b, '/');
    }
    PrefixCut(u, rest);
    NoGapUncompressed(u);
    AcceptsDottedGroups(u + rest, groups, quads);
  }

  /** The zero groups and the groups of both sides are canonical. */
  lemma ExpandedCanonical(ip1: Bytes, ip2: Bytes)
    requires Missing(ip1, ip2) >= 1
    requires AllCanonical(Pieces(ip1)) && AllCanonical(Pieces(ip2))
    ensures AllCanonical(Expanded(ip1, ip2))
  {
    ZerosCanonical(Missing(ip1, ip2));
    AllCanonicalConcat(Pieces(ip1), Zeros(Missing(ip1, ip2)));
    AllCanonicalConcat(Pieces(ip1) + Zeros(Missing(ip1, ip2)), Pieces(ip2));
  }

  /** A "::" that stands for one group or more between canonical groups,
      with or without a prefix, is accepted. */
  lemma AcceptsCompressed(ip1: Bytes, ip2: Bytes, rest: Bytes)
    requires OneGap(ip1, ip2) && '/' !in ip1 + Gap + ip2 && '.' !in ip2
    requires Missing(ip1, ip2) >= 1
    requires AllCanonical(Pieces(ip1)) && AllCanonical(Pieces(ip2))
    requires rest == [] || rest[0] == '/'
    ensures IsIPv6Address(ip1 + Gap + ip2 + rest)
  {
    var x := ip1 + Gap + ip2;
    PrefixCut(x, rest);
    UncompressGroups(ip1, ip2);
    ExpandedColonFree(ip1, ip2);
    ExpandedCanonical(ip1, ip2);
    AcceptsGroups(x + rest, Expanded(ip1, ip2));
  }

  /** The same with a dotted quad as the last group after "::". */
  lemma AcceptsCompressedDotted(ip1: Bytes, ip2: Bytes, quads: seq<Bytes>, rest: Bytes)
    requires OneGap(ip1, ip2) && '/' !in ip1 + Gap + ip2 && '.' in ip2
    requires Missing(ip1, ip2) >= 1
    requires AllCanonical(Pieces(ip1))
    requires |Pieces(ip2)| >= 1 && AllCanonical(Pieces(ip2)[..|Pieces(ip2)| - 1])
    requires |quads| == 4 && AllCanonicalQuads(quads)
    requires Pieces(ip2)[|Pieces(ip2)| - 1] == Implode(quads, '.')
    requires rest == [] || rest[0] == '/'
    ensures IsIPv6Address(ip1 + Gap + ip2 + rest)
  {
    var x := ip1 + Gap + ip2;
    PrefixCut(x, rest);
    UncompressGroups(ip1, ip2);
    DottedExpansion(ip1, ip2, quads);
    AcceptsDottedGroups(x + rest, Expanded(ip1, ip2)[..6], quads);
  }

  /** The expansion is six canonical groups, ':' and the dotted quad. */
  lemma DottedExpansion(ip1: Bytes, ip2: Bytes, quads: seq<Bytes>)
    requires Missing(ip1, ip2) >= 1 && '.' in ip2
    requires AllCanonical(Pieces(ip1))
    requires |Pieces(ip2)| >= 1 && AllCanonical(Pieces(ip2)[..|Pieces(ip2)| - 1])
    requires |quads| >= 1 && Pieces(ip2)[|Pieces(ip2)| - 1] == Implode(quads, '.')
    ensures |Expanded(ip1, ip2)| == 7 && AllCanonical(Expanded(ip1, ip2)[..6])
    ensures Implode(Expanded(ip1, ip2), ':') ==
            Implode(Expanded(ip1, ip2)[..6], ':') + Colon + Implode(quads, '.')
  {
    var e := Expanded(ip1, ip2);
    DottedFront(ip1, ip2);
    assert e[6] == Implode(quads, '.');
    ImplodeLast(e);
  }

  /** Implode with its last piece split off. */
  lemma {:induction false} ImplodeLast(e: seq<Bytes>)
    requires |e| >= 2
    ensures Implode(e, ':') == Implode(e[..|e| - 1], ':') + Colon + e[|e| - 1]
    decreases |e|
  {
    var front := e[..|e| - 1];
    var rest := e[1..];
    assert Implode(e, ':') == e[0] + Colon + Implode(rest, ':');
    if |e| == 2 {
      assert Implode(rest, ':') == e[1];
      assert Implode(front, ':') == e[0];
    } else {
      ImplodeLast(rest);
      assert rest[..|rest| - 1] == front[1..];
      assert Implode(front, ':') == e[0] + Colon + Implode(front[1..], ':');
      assert rest[|rest| - 1] == e[|e| - 1];
    }
  }

  lemma DottedFront(ip1: Bytes, ip2: Bytes)
    requires Missing(ip1, ip2) >= 1 && '.' in ip2
    requires AllCanonical(Pieces(ip1))
    requires |Pieces(ip2)| >= 1 && AllCanonical(Pieces(ip2)[..|Pieces(ip2)| - 1])
    ensures |Expanded(ip1, ip2)| == 7 && AllCanonical(Expanded(ip1, ip2)[..6])
  {
    var p1 := Pieces(ip1);
    var p2 := Pieces(ip2);
    var z := Zeros(Missing(ip1, ip2));
    var e := Expanded(ip1, ip2);
    assert |e| == 7;
    assert e[..6] == p1 + z + p2[..|p2| - 1];
    ZerosCanonical(Missing(ip1, ip2));
    AllCanonicalConcat(p1, z);
    AllCanonicalConcat(p1 + z, p2[..|p2| - 1]);
  }

  /** checkIPv6 counts the groups that pass rather than asking all to pass:
      eight canonical groups and one group more are accepted exactly when
      that one fails the group test. */
  lemma CountsPassingGroups(groups: seq<Bytes>, extra: Bytes)
    requires |groups| == 8 && AllCanonical(groups)
    requires ':' !in extra && '.' !in extra && '/' !in extra
    ensures IsIPv6Address(Implode(groups + [extra], ':')) <==> !WellFormedGroup(extra)
  {
    var u := Implode(groups + [extra], ':');
    ExtraText(groups, extra);
    NoGapUncompressed(u);
    ExtraCount(groups, extra);
  }

  /** The text of eight canonical groups and one more. */
  lemma ExtraText(groups: seq<Bytes>, extra: Bytes)
    requires |groups| == 8 && AllCanonical(groups)
    requires ':' !in extra && '.' !in extra && '/' !in extra
    ensures var u := Implode(groups + [extra], ':');
      NoDoubleColon(u) && '/' !in u && '.' !in u && !PhpEmpty(u) &&
      Explode(u, ':') == groups + [extra]
  {
    var a := Implode(groups, ':');
    var u := a + Colon + extra;
    ImplodeConcat(groups, [extra], ':');
    assert Implode(groups + [extra], ':') == u;
    JoinedGroups(groups);
    HexOrColonBytes(a);
    ColonJoinSingle(a, extra);
    JoinBytes(a, extra, '/');
    JoinBytes(a, extra, '.');
    assert u[|a|] == ':';
    assert forall k :: 0 <= k < |groups + [extra]| ==> ':' !in (groups + [extra])[k] by {
      assert forall k :: 0 <= k < |groups| ==> ':' !in groups[k] by {
        GroupsText(groups);
      }
    }
    ExplodeImplode(groups + [extra], ':');
  }

  lemma ExtraCount(groups: seq<Bytes>, extra: Bytes)
    requires |groups| == 8 && AllCanonical(groups)
    ensures CountPassing(groups + [extra], WellFormedGroup) ==
            8 + (if WellFormedGroup(extra) then 1 else 0)
  {
    GroupsText(groups);
    assert (groups + [extra])[..8] == groups;
  }
}
