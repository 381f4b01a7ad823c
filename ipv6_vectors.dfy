/** Addresses from the Net_IPv6 unit tests, each obtained by instantiating
    the general theorems about Uncompress and checkIPv6. */
module IPv6Vectors {
  import opened Text
  import opened IPv6
  import opened IPv6Check

  /** One side of "::" without ':' is one group. */
  lemma SinglePiece(s: Bytes)
    requires s != [] && ':' !in s
    ensures Pieces(s) == [s]
  {
    ExplodeImplode([s], ':');
  }

  /** One side of "::" with a single ':' is two groups. */
  lemma TwoPieces(a: Bytes, b: Bytes)
    requires a != [] && b != [] && ':' !in a && ':' !in b
    ensures Pieces(a + Colon + b) == [a, b]
  {
    assert Implode([a, b], ':') == a + Colon + b;
    ExplodeImplode([a, b], ':');
  }

  /** A group as the Uncompress tests write one: no ':', no '/', no '.'. */
  predicate PlainGroup(s: Bytes) {
    s != [] && ':' !in s && '/' !in s && '.' !in s
  }

  /** A group as the validity tests write one: one to four hex digits. */
  predicate ShortGroup(s: Bytes) {
    1 <= |s| <= 4 && AllHex(s)
  }

  lemma ShortIsPlain(s: Bytes)
    requires ShortGroup(s)
    ensures PlainGroup(s) && AllCanonical([s])
  {
    forall i | 0 <= i < |s|
      ensures s[i] != ':' && s[i] != '/' && s[i] != '.'
    {
      assert IsHexDigit(s[i]);
    }
    ShortGroupCanonical(s);
  }

  lemma PlainShape(s: Bytes)
    requires PlainGroup(s)
    ensures Pieces(s) == [s] && NoDoubleColon(s)
    ensures s[0] != ':' && s[|s| - 1] != ':'
  {
    SinglePiece(s);
    ColonFree(s);
  }

  lemma SixZeros()
    ensures Implode(Zeros(6), ':') == "0:0:0:0:0:0"
  {
    assert Implode(Zeros(1), ':') == "0";
    ZerosSplit(2);
    ZerosSplit(3);
    ZerosSplit(4);
    ZerosSplit(5);
    ZerosSplit(6);
  }

  lemma SevenZeros()
    ensures Implode(Zeros(7), ':') == "0:0:0:0:0:0:0"
  {
    SixZeros();
    ZerosSplit(7);
  }

  // ---------------------------------------------------------------------
  // Uncompress: "ff01::101", "::1" and "1::"

  /** A "::" between two groups stands for six zero groups. */
  lemma UncompressBetween(a: Bytes, b: Bytes)
    requires PlainGroup(a) && PlainGroup(b)
    ensures Uncompress(a + Gap + b) == a + ":0:0:0:0:0:0:" + b
  {
    BetweenGroups(a, b);
    SixZeroFill();
    Framed(a, Implode(Zeros(6), ':'), b, ":0:0:0:0:0:0:");
  }

  lemma BetweenGroups(a: Bytes, b: Bytes)
    requires PlainGroup(a) && PlainGroup(b)
    ensures Uncompress(a + Gap + b) == a + [':'] + Implode(Zeros(6), ':') + [':'] + b
  {
    PlainShape(a);
    PlainShape(b);
    assert '/' !in a + Gap + b;
    assert Missing(a, b) == 6;
    UncompressGroups(a, b);
    assert Expanded(a, b) == [a] + Zeros(6) + [b];
    ImplodeConcat([a], Zeros(6), ':');
    ImplodeConcat([a] + Zeros(6), [b], ':');
  }

  lemma SixZeroFill()
    ensures [':'] + Implode(Zeros(6), ':') + [':'] == ":0:0:0:0:0:0:"
  {
    SixZeros();
  }

  /** Regrouping the text around a run of zero groups. */
  lemma Framed(a: Bytes, z: Bytes, b: Bytes, fill: Bytes)
    requires [':'] + z + [':'] == fill
    ensures a + [':'] + z + [':'] + b == a + fill + b
  {
  }

  /** A leading "::" before one group stands for seven zero groups. */
  lemma UncompressBefore(b: Bytes)
    requires PlainGroup(b)
    ensures Uncompress(Gap + b) == "0:0:0:0:0:0:0:" + b
  {
    BeforeGroups(b);
    SevenZeros();
    AppendAssoc(Implode(Zeros(7), ':'), [':'], b);
  }

  lemma BeforeGroups(b: Bytes)
    requires PlainGroup(b)
    ensures Uncompress(Gap + b) == Implode(Zeros(7), ':') + [':'] + b
  {
    BeforeExpanded(b);
    ImplodeConcat(Zeros(7), [b], ':');
  }

  lemma BeforeExpanded(b: Bytes)
    requires PlainGroup(b)
    ensures Uncompress(Gap + b) == Implode(Zeros(7) + [b], ':')
  {
    PlainShape(b);
    assert [] + Gap + b == Gap + b;
    assert Missing([], b) == 7;
    UncompressGroups([], b);
    assert Expanded([], b) == Zeros(7) + [b];
  }

  /** A trailing "::" after one group stands for seven zero groups. */
  lemma UncompressAfter(a: Bytes)
    requires PlainGroup(a)
    ensures Uncompress(a + Gap) == a + ":0:0:0:0:0:0:0"
  {
    AfterGroups(a);
    SevenZeroFill();
    AppendAssoc(a, [':'], Implode(Zeros(7), ':'));
  }

  lemma AfterGroups(a: Bytes)
    requires PlainGroup(a)
    ensures Uncompress(a + Gap) == a + [':'] + Implode(Zeros(7), ':')
  {
    PlainShape(a);
    assert a + Gap + [] == a + Gap;
    assert Missing(a, []) == 7;
    UncompressGroups(a, []);
    assert Expanded(a, []) == [a] + Zeros(7);
    ImplodeConcat([a], Zeros(7), ':');
  }

  lemma SevenZeroFill()
    ensures [':'] + Implode(Zeros(7), ':') == ":0:0:0:0:0:0:0"
  {
    SevenZeros();
  }

  /** With a "/prefix" after a trailing "::", as in
      "2001:4abc:abcd:0:3744::/120", the prefix is counted as a group and
      dropped: one zero group short, and a trailing ':'. */
  lemma UncompressAfterWithPrefix(a: Bytes, n: Bytes)
    requires PlainGroup(a) && ':' !in n && '.' !in n
    ensures Uncompress(a + Gap + ['/'] + n) == a + ":0:0:0:0:0:0:"
  {
    PrefixText(a, n);
    SixZeroFill();
    Framed(a, Implode(Zeros(6), ':'), [], ":0:0:0:0:0:0:");
    assert a + ":0:0:0:0:0:0:" + [] == a + ":0:0:0:0:0:0:";
  }

  // ---------------------------------------------------------------------
  // checkIPv6

  /** "ff01::101", "FF00::/8": one group on each side of "::", with or
      without a prefix. */
  lemma ValidBetween(a: Bytes, b: Bytes, rest: Bytes)
    requires ShortGroup(a) && ShortGroup(b)
    requires rest == [] || rest[0] == '/'
    ensures IsIPv6Address(a + Gap + b + rest)
  {
    ShortIsPlain(a);
    ShortIsPlain(b);
    PlainShape(a);
    PlainShape(b);
    assert '/' !in a + Gap + b;
    AcceptsCompressed(a, b, rest);
  }

  /** "::1", "::1/128". */
  lemma ValidBefore(b: Bytes, rest: Bytes)
    requires ShortGroup(b)
    requires rest == [] || rest[0] == '/'
    ensures IsIPv6Address(Gap + b + rest)
  {
    ShortIsPlain(b);
    PlainShape(b);
    assert [] + Gap + b == Gap + b;
    assert '/' !in Gap + b;
    AcceptsCompressed([], b, rest);
  }

  /** "1::", "FF00::/8", "FE80::/10". */
  lemma ValidAfter(a: Bytes, rest: Bytes)
    requires ShortGroup(a)
    requires rest == [] || rest[0] == '/'
    ensures IsIPv6Address(a + Gap + rest)
  {
    ShortIsPlain(a);
    PlainShape(a);
    assert a + Gap + [] == a + Gap;
    assert '/' !in a + Gap;
    AcceptsCompressed(a, [], rest);
  }

  /** "::/128": the all-zero address. */
  lemma ValidGapOnly(rest: Bytes)
    requires rest == [] || rest[0] == '/'
    ensures IsIPv6Address(Gap + rest)
  {
    assert [] + Gap + [] == Gap;
    AcceptsCompressed([], [], rest);
  }

  /** The text of four canonical quads joined by '.'. */
  lemma DottedText(quads: seq<Bytes>)
    requires |quads| == 4 && AllCanonicalQuads(quads)
    ensures var d := Implode(quads, '.');
      PlainTail(d) && Pieces(d) == [d]
  {
    var d := Implode(quads, '.');
    JoinedQuads(quads);
    DigitOrDotBytes(d);
    forall i | 0 <= i < |d|
      ensures d[i] != '/'
    {
    }
    SinglePiece(d);
  }

  /** An IPv4 tail as the dotted tests write one: no ':' and no '/'. */
  predicate PlainTail(d: Bytes) {
    d != [] && ':' !in d && '/' !in d && '.' in d
  }

  /** "::13.1.68.3": "::" then an IPv4 tail. */
  lemma ValidDottedOnly(quads: seq<Bytes>, rest: Bytes)
    requires |quads| == 4 && AllCanonicalQuads(quads)
    requires rest == [] || rest[0] == '/'
    ensures IsIPv6Address(Gap + Implode(quads, '.') + rest)
  {
    var d := Implode(quads, '.');
    DottedText(quads);
    ColonFree(d);
    assert [] + Gap + d == Gap + d;
    assert '/' !in Gap + d;
    assert AllCanonical(Pieces(d)[..0]);
    AcceptsCompressedDotted([], d, quads, rest);
  }

  /** "::FFFF:129.144.52.38", "ffff::FFFF:129.144.52.38": at most one
      group, "::", one group and an IPv4 tail. */
  lemma ValidDotted(a: Bytes, g: Bytes, quads: seq<Bytes>, rest: Bytes)
    requires a == [] || ShortGroup(a)
    requires ShortGroup(g)
    requires |quads| == 4 && AllCanonicalQuads(quads)
    requires rest == [] || rest[0] == '/'
    ensures IsIPv6Address(a + Gap + g + Colon + Implode(quads, '.') + rest)
  {
    var ip2 := g + Colon + Implode(quads, '.');
    GroupAndTail(g, quads);
    if a != [] {
      ShortIsPlain(a);
      PlainShape(a);
    }
    assert '/' !in a + Gap + ip2;
    Regroup(a + Gap, g, Colon, Implode(quads, '.'), rest);
    AcceptsCompressedDotted(a, ip2, quads, rest);
  }

  lemma Regroup(x: Bytes, g: Bytes, c: Bytes, d: Bytes, rest: Bytes)
    ensures x + g + c + d + rest == x + (g + c + d) + rest
  {
  }

  /** One group, ':' and an IPv4 tail: two pieces, the first canonical. */
  lemma GroupAndTail(g: Bytes, quads: seq<Bytes>)
    requires ShortGroup(g)
    requires |quads| == 4 && AllCanonicalQuads(quads)
    ensures var ip2 := g + Colon + Implode(quads, '.');
      NoDoubleColon(ip2) && ip2[0] != ':' && '.' in ip2 && '/' !in ip2 &&
      Pieces(ip2) == [g, Implode(quads, '.')] && AllCanonical([g])
  {
    var d := Implode(quads, '.');
    var ip2 := g + Colon + d;
    DottedText(quads);
    ShortIsPlain(g);
    PlainShape(g);
    TwoPieces(g, d);
    forall j | 0 <= j < |ip2| - 1
      ensures !(ip2[j] == ':' && ip2[j + 1] == ':')
    {
      if j < |g| {
        assert ip2[j] == g[j];
      } else {
        assert ip2[j + 1] == d[j - |g|];
      }
    }
    var k :| 0 <= k < |d| && d[k] == '.';
    assert ip2[|g| + 1 + k] == '.';
  }

  // ---------------------------------------------------------------------
  // The test addresses themselves

  // Each example is the instance of a lemma above; the helper beside it
  // spells the literal out as the concatenation the lemma speaks of.

  lemma UncompressInnerExample()
    ensures Uncompress("ff01::101") == "ff01:0:0:0:0:0:0:101"
  {
    UncompressBetween("ff01", "101");
    InnerSpelling();
  }

  lemma InnerSpelling()
    ensures "ff01" + Gap + "101" == "ff01::101"
    ensures "ff01" + ":0:0:0:0:0:0:" + "101" == "ff01:0:0:0:0:0:0:101"
  {
  }

  lemma UncompressLeadingExample()
    ensures Uncompress("::1") == "0:0:0:0:0:0:0:1"
  {
    UncompressBefore("1");
    LeadingSpelling();
  }

  lemma LeadingSpelling()
    ensures Gap + "1" == "::1"
    ensures "0:0:0:0:0:0:0:" + "1" == "0:0:0:0:0:0:0:1"
  {
  }

  lemma UncompressTrailingExample()
    ensures Uncompress("1::") == "1:0:0:0:0:0:0:0"
  {
    UncompressAfter("1");
    TrailingSpelling();
  }

  lemma TrailingSpelling()
    ensures "1" + Gap == "1::"
    ensures "1" + ":0:0:0:0:0:0:0" == "1:0:0:0:0:0:0:0"
  {
  }

  /** Test 75 expects "2001:4abc:abcd:0:3744:0:0:0/120"; with a single group
      before "::" the text as written keeps one zero group too few. */
  lemma UncompressPrefixExample()
    ensures Uncompress("1::/8") == "1:0:0:0:0:0:0:"
  {
    UncompressAfterWithPrefix("1", "8");
    PrefixSpelling();
  }

  lemma PrefixSpelling()
    ensures "1" + Gap + ['/'] + "8" == "1::/8"
    ensures "1" + ":0:0:0:0:0:0:" == "1:0:0:0:0:0:0:"
  {
  }

  lemma ValidInnerExample()
    ensures IsIPv6Address("ff01::101")
  {
    ValidBetween("ff01", "101", []);
    ValidInnerSpelling();
  }

  lemma ValidInnerSpelling()
    ensures "ff01" + Gap + "101" + [] == "ff01::101"
  {
  }

  lemma ValidLeadingExample()
    ensures IsIPv6Address("::1/128")
  {
    ValidBefore("1", "/128");
    ValidLeadingSpelling();
  }

  lemma ValidLeadingSpelling()
    ensures Gap + "1" + "/128" == "::1/128"
  {
  }

  lemma ValidTrailingExample()
    ensures IsIPv6Address("FF00::/8")
  {
    ValidAfter("FF00", "/8");
    ValidTrailingSpelling();
  }

  lemma ValidTrailingSpelling()
    ensures "FF00" + Gap + "/8" == "FF00::/8"
  {
  }

  lemma ValidGapExample()
    ensures IsIPv6Address("::/128")
  {
    ValidGapOnly("/128");
    ValidGapSpelling();
  }

  lemma ValidGapSpelling()
    ensures Gap + "/128" == "::/128"
  {
  }

  lemma ValidDottedExample()
    ensures IsIPv6Address("::FFFF:129.144.52.38")
  {
    var quads: seq<Bytes> := ["129", "144", "52", "38"];
    DottedQuads(quads);
    ValidDotted([], "FFFF", quads, []);
    ValidDottedSpelling(quads);
  }

  lemma DottedQuads(quads: seq<Bytes>)
    requires quads == ["129", "144", "52", "38"]
    ensures AllCanonicalQuads(quads)
  {
    DecimalDigits("129");
    DecimalDigits("144");
    DecimalDigits("52");
    DecimalDigits("38");
  }

  /** The value of two or three decimal digits. */
  lemma DecimalDigits(q: Bytes)
    requires 2 <= |q| <= 3 && AllDigits(q)
    ensures |q| == 2 ==> DecimalValue(q) == (q[0] - '0') as int * 10 + (q[1] - '0') as int
    ensures |q| == 3 ==>
      DecimalValue(q) == (q[0] - '0') as int * 100 + (q[1] - '0') as int * 10 + (q[2] - '0') as int
  {
    if |q| == 2 {
      DecimalTwo(q);
    } else {
      var p := q[..2];
      DecimalTwo(p);
      assert p[0] == q[0] && p[1] == q[1];
      assert DecimalValue(q) == DecimalValue(p) * 10 + (q[2] - '0') as int;
    }
  }

  lemma DecimalTwo(q: Bytes)
    requires |q| == 2 && AllDigits(q)
    ensures DecimalValue(q) == (q[0] - '0') as int * 10 + (q[1] - '0') as int
  {
    var p := q[..1];
    assert p[..0] == [];
    assert DecimalValue(p) == (q[0] - '0') as int;
    assert DecimalValue(q) == DecimalValue(p) * 10 + (q[1] - '0') as int;
  }

  lemma ValidDottedSpelling(quads: seq<Bytes>)
    requires quads == ["129", "144", "52", "38"]
    ensures [] + Gap + "FFFF" + Colon + Implode(quads, '.') + [] == "::FFFF:129.144.52.38"
  {
    assert Implode(quads[2..], '.') == "52.38";
    assert Implode(quads, '.') == "129.144.52.38";
  }
}
