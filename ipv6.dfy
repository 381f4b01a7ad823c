/** Net_IPv6: the prefix stripping, '::' expansion, IPv4-tail splitting and
    validity test that the IRI host setter relies on for "[...]" hosts. */
module IPv6 {
  import opened Text

  // ---------------------------------------------------------------------
  // removeNetmaskSpec

  /** The address without a "/prefix" part: the text before the first '/'. */
  function RemoveNetmaskSpec(ip: Bytes): (r: Bytes)
    ensures '/' !in r
    ensures |r| <= |ip| && r == ip[..|r|]
    ensures |r| < |ip| ==> ip[|r|] == '/'
    ensures '/' !in ip ==> r == ip
  {
    match IndexOfChar(ip, '/', 0)
    case None => ip
    case Some(i) => ip[..i]
  }

  /** The first piece of explode('/') is exactly what RemoveNetmaskSpec keeps. */
  lemma NetmaskIsFirstPiece(ip: Bytes)
    ensures RemoveNetmaskSpec(ip) == Explode(ip, '/')[0]
  {
  }

  /** The prefix is cut at its first '/' whatever follows it. */
  lemma {:induction false} NetmaskCut(addr: Bytes, rest: Bytes)
    requires '/' !in addr
    ensures RemoveNetmaskSpec(addr + ['/'] + rest) == addr
  {
    var ip := addr + ['/'] + rest;
    IndexOfCharSkip(ip, '/', |addr|);
    assert ip[..|addr|] == addr;
  }

  // ---------------------------------------------------------------------
  // Uncompress, as written

  const Gap: Bytes := "::"
  const Colon: Bytes := ":"
  /** The fills str_repeat writes for "::" at the start, end and inside. */
  const LeadFill: Bytes := "0:"
  const TrailFill: Bytes := ":0"
  const InnerFill: Bytes := ":0:"

  /** The text between the first "::" at i and the next "::" (or the end):
      the second element of explode('::', ip). */
  function SecondPiece(ip: Bytes, i: nat): (r: Bytes)
    requires OccursAt(ip, Gap, i)
  {
    match IndexOf(ip, Gap, i + 2)
    case None => ip[i + 2..]
    case Some(j) => ip[i + 2..j]
  }

  /** The number of ':' in a non-empty piece, -1 for an empty one. */
  function ColonCount(piece: Bytes): int {
    if piece == [] then -1 else Count(piece, ':')
  }

  /** Uncompress as written: the groups before and after "::" are counted
      on the text as given, with any "/prefix" still attached, and the
      fill replaces "::" in the address with its prefix removed. */
  function Uncompress(ip: Bytes): (r: Bytes)
    ensures !Contains(ip, Gap) ==> r == RemoveNetmaskSpec(ip)
  {
    var found := IndexOf(ip, Gap, 0);
    if found.None? then RemoveNetmaskSpec(ip)
    else Expand(RemoveNetmaskSpec(ip), ColonCount(ip[..found.value]),
                TailCount(SecondPiece(ip, found.value)))
  }

  /** The count after "::": its colons, and one more when it holds a '.'
      (an IPv4 tail is two groups written as one). */
  function TailCount(ip2: Bytes): int {
    ColonCount(ip2) + (if '.' in ip2 then 1 else 0)
  }

  /** The four cases of the expansion, from the colon counts c1 before and
      c2 after "::" (-1 for an empty side). A count that leaves no room
      gives str_repeat a negative count, that is an empty fill. */
  function Expand(uip: Bytes, c1: int, c2: int): Bytes {
    if c1 == -1 && c2 == -1 then "0:0:0:0:0:0:0:0"
    else if c1 == -1 then ReplaceAll(uip, Gap, Repeat(LeadFill, 7 - c2))
    else if c2 == -1 then ReplaceAll(uip, Gap, Repeat(TrailFill, 7 - c1))
    else ReplaceAll(ReplaceAll(uip, Gap, Repeat(InnerFill, 6 - c2 - c1)), Gap, Colon)
  }

  /** Uncompress on an address with one "::" between ip1 and ip2 and no
      prefix: the expansion of the counts of both sides. */
  lemma UncompressGap(ip1: Bytes, ip2: Bytes)
    requires OneGap(ip1, ip2) && '/' !in ip1 + Gap + ip2
    ensures Uncompress(ip1 + Gap + ip2) ==
            Expand(ip1 + Gap + ip2, ColonCount(ip1), TailCount(ip2))
  {
    var ip := ip1 + Gap + ip2;
    GapFound(ip1, ip2);
    assert ip[..|ip1|] == ip1;
  }

  // ---------------------------------------------------------------------
  // Groups

  predicate NoDoubleColon(s: Bytes) {
    forall j :: 0 <= j < |s| - 1 ==> !(s[j] == ':' && s[j + 1] == ':')
  }

  /** The ':'-separated groups of one side of "::"; none when it is empty. */
  function Pieces(s: Bytes): (r: seq<Bytes>)
    ensures s == [] ==> r == []
    ensures s != [] ==> |r| == Count(s, ':') + 1
    ensures forall k :: 0 <= k < |r| ==> ':' !in r[k]
  {
    if s == [] then [] else Explode(s, ':')
  }

  /** k zero groups. */
  function Zeros(k: nat): (r: seq<Bytes>)
    ensures |r| == k && forall i :: 0 <= i < k ==> r[i] == "0"
  {
    if k == 0 then [] else ["0"] + Zeros(k - 1)
  }

  /** How many zero groups a "::" between ip1 and ip2 stands for, so that
      the address has eight groups, an IPv4 tail counting for two. */
  function Missing(ip1: Bytes, ip2: Bytes): int {
    8 - |Pieces(ip1)| - |Pieces(ip2)| - (if '.' in ip2 then 1 else 0)
  }

  /** The shape of an address with one "::": no other "::" and no ":::". */
  predicate OneGap(ip1: Bytes, ip2: Bytes) {
    NoDoubleColon(ip1) && NoDoubleColon(ip2) &&
    (ip1 != [] ==> ip1[|ip1| - 1] != ':') &&
    (ip2 != [] ==> ip2[0] != ':')
  }

  // ---------------------------------------------------------------------
  // implode, explode and the fills

  lemma {:induction false} ImplodeConcat(a: seq<Bytes>, b: seq<Bytes>, sep: Byte)
    requires |a| >= 1 && |b| >= 1
    ensures Implode(a + b, sep) == Implode(a, sep) + [sep] + Implode(b, sep)
    decreases |a|
  {
    if |a| > 1 {
      assert (a + b)[1..] == a[1..] + b;
      ImplodeConcat(a[1..], b, sep);
    } else {
      assert (a + b)[1..] == b;
    }
  }

  /** implode(explode(s)) == s. */
  lemma {:induction false} ImplodeExplode(s: Bytes, sep: Byte)
    ensures Implode(Explode(s, sep), sep) == s
    decreases |s|
  {
    match IndexOfChar(s, sep, 0)
    case None =>
    case Some(i) =>
      ImplodeExplode(s[i + 1..], sep);
      assert s == s[..i] + [sep] + s[i + 1..];
  }

  lemma ZerosSplit(k: nat)
    requires k >= 1
    ensures Zeros(k) == ["0"] + Zeros(k - 1)
    ensures k >= 2 ==> Implode(Zeros(k), ':') == ['0', ':'] + Implode(Zeros(k - 1), ':')
  {
    if k >= 2 {
      assert Zeros(k)[1..] == Zeros(k - 1);
    }
  }

  /** str_repeat('0:', k): k zero groups and a trailing ':'. */
  lemma {:induction false} RepeatZeroColon(k: nat)
    requires k >= 1
    ensures Repeat(LeadFill, k) == Implode(Zeros(k), ':') + Colon
    decreases k
  {
    ZerosSplit(k);
    if k >= 2 {
      RepeatZeroColon(k - 1);
    }
  }

  /** str_repeat(':0', k): a leading ':' and k zero groups. */
  lemma {:induction false} RepeatColonZero(k: nat)
    requires k >= 1
    ensures Repeat(TrailFill, k) == Colon + Implode(Zeros(k), ':')
    decreases k
  {
    ZerosSplit(k);
    if k >= 2 {
      RepeatColonZero(k - 1);
    }
  }

  /** One "::" replaced by ':' at the head of the scan. */
  lemma NoGapUnchanged(s: Bytes, rep: Bytes)
    requires NoDoubleColon(s)
    ensures ReplaceAll(s, Gap, rep) == s
  {
    ReplaceColonsNone(s, rep);
  }

  lemma GapStep(x: Bytes)
    ensures ReplaceAll(Gap + x, Gap, Colon) == Colon + ReplaceAll(x, Gap, Colon)
  {
    ReplaceStep(Gap + x, Gap, Colon);
    assert (Gap + x)[..2] == Gap;
    assert (Gap + x)[2..] == x;
  }

  lemma GapStepFill(x: Bytes, fill: Bytes)
    ensures ReplaceAll(Gap + x, Gap, fill) == fill + ReplaceAll(x, Gap, fill)
  {
    ReplaceStep(Gap + x, Gap, fill);
    assert (Gap + x)[..2] == Gap;
    assert (Gap + x)[2..] == x;
  }

  lemma LeadSplit(k: nat, t: Bytes)
    requires k >= 1
    ensures LeadFill + Repeat(InnerFill, k) + t ==
            ['0'] + (Gap + (LeadFill + Repeat(InnerFill, k - 1) + t))
  {
    assert Repeat(InnerFill, k) == InnerFill + Repeat(InnerFill, k - 1);
  }

  lemma InnerSplit(k: nat, t: Bytes)
    requires k >= 1
    ensures Repeat(InnerFill, k) + t == [':'] + (LeadFill + Repeat(InnerFill, k - 1) + t)
  {
    assert Repeat(InnerFill, k) == InnerFill + Repeat(InnerFill, k - 1);
  }

  /** The first fill ":0:" keeps its leading ':'. */
  lemma InnerStep(k: nat, t: Bytes)
    requires k >= 1
    ensures ReplaceAll(Repeat(InnerFill, k) + t, Gap, Colon) ==
            Colon + ReplaceAll(LeadFill + Repeat(InnerFill, k - 1) + t, Gap, Colon)
  {
    var y := LeadFill + Repeat(InnerFill, k - 1) + t;
    InnerSplit(k, t);
    assert y[0] == '0';
    ReplaceColonsSingle(':', y, Colon);
  }

  lemma Glue(i: Bytes, r: Bytes)
    ensures ['0'] + (Colon + (i + Colon + r)) == ['0', ':'] + i + Colon + r
  {
  }

  /** What may follow the fills: no "::" inside and no ':' at its start. */
  predicate GapFreeTail(t: Bytes) {
    NoDoubleColon(t) && (t == [] || t[0] != ':')
  }

  /** The second str_replace turns "0:" followed by k fills ":0:" into k + 1
      zero groups, each "::" between two fills becoming ':'. */
  lemma {:induction false} CollapseFills(k: nat, t: Bytes)
    requires GapFreeTail(t)
    ensures ReplaceAll(LeadFill + Repeat(InnerFill, k) + t, Gap, Colon) ==
            Implode(Zeros(k + 1), ':') + Colon + t
    decreases k
  {
    if k == 0 {
      CollapseOne(t);
    } else {
      var a := ReplaceAll(LeadFill + Repeat(InnerFill, k - 1) + t, Gap, Colon);
      CollapseStep(k, t);
      CollapseFills(k - 1, t);
      assert a == Implode(Zeros(k), ':') + Colon + t;
      ZerosSplit(k + 1);
      Glue(Implode(Zeros(k), ':'), t);
    }
  }

  /** "0:" followed by t: the single zero group. */
  lemma CollapseOne(t: Bytes)
    requires GapFreeTail(t)
    ensures ReplaceAll(LeadFill + Repeat(InnerFill, 0) + t, Gap, Colon) ==
            Implode(Zeros(1), ':') + Colon + t
  {
    assert LeadFill + Repeat(InnerFill, 0) + t == ['0'] + ([':'] + t);
    ReplaceColonsSingle('0', [':'] + t, Colon);
    ReplaceColonsSingle(':', t, Colon);
    NoGapUnchanged(t, Colon);
  }

  /** The "::" after the first zero becomes ':'. */
  lemma CollapseStep(k: nat, t: Bytes)
    requires k >= 1
    ensures ReplaceAll(LeadFill + Repeat(InnerFill, k) + t, Gap, Colon) ==
            ['0'] + (Colon + ReplaceAll(LeadFill + Repeat(InnerFill, k - 1) + t, Gap, Colon))
  {
    var x := LeadFill + Repeat(InnerFill, k - 1) + t;
    LeadSplit(k, t);
    ReplaceColonsSingle('0', Gap + x, Colon);
    GapStep(x);
  }

  /** Both replacements on k >= 1 fills ":0:" followed by t. */
  lemma FillMiddle(k: nat, t: Bytes)
    requires k >= 1
    requires GapFreeTail(t)
    ensures ReplaceAll(Repeat(InnerFill, k) + t, Gap, Colon) ==
            Colon + (Implode(Zeros(k), ':') + Colon + t)
  {
    var a := ReplaceAll(LeadFill + Repeat(InnerFill, k - 1) + t, Gap, Colon);
    InnerStep(k, t);
    assert ReplaceAll(Repeat(InnerFill, k) + t, Gap, Colon) == Colon + a;
    CollapseFills(k - 1, t);
    assert a == Implode(Zeros(k), ':') + Colon + t;
  }

  // ---------------------------------------------------------------------
  // Uncompress on an address with one "::"

  /** A "::" at j is two ':' bytes at j and j + 1. */
  lemma GapBytes(s: Bytes, j: nat)
    ensures OccursAt(s, Gap, j) <==> j + 2 <= |s| && s[j] == ':' && s[j + 1] == ':'
  {
    if j + 2 <= |s| {
      assert s[j..j + 2] == [s[j], s[j + 1]];
    }
  }

  lemma NoGapBefore(ip1: Bytes, ip2: Bytes, j: nat)
    requires OneGap(ip1, ip2) && j < |ip1|
    ensures !OccursAt(ip1 + Gap + ip2, Gap, j)
  {
    var ip := ip1 + Gap + ip2;
    GapBytes(ip, j);
    if j + 1 < |ip1| {
      assert ip[j] == ip1[j] && ip[j + 1] == ip1[j + 1];
    } else {
      assert ip[j] == ip1[j];
    }
  }

  lemma NoGapAfter(ip1: Bytes, ip2: Bytes, j: nat)
    requires OneGap(ip1, ip2) && |ip1| + 2 <= j
    ensures !OccursAt(ip1 + Gap + ip2, Gap, j)
  {
    var ip := ip1 + Gap + ip2;
    GapBytes(ip, j);
    if j + 2 <= |ip| {
      var i := j - |ip1| - 2;
      assert ip[j] == ip2[i] && ip[j + 1] == ip2[i + 1];
    }
  }

  /** strpos finds the "::" between ip1 and ip2, and explode's second piece
      is ip2. */
  lemma GapFound(ip1: Bytes, ip2: Bytes)
    requires OneGap(ip1, ip2)
    ensures OccursAt(ip1 + Gap + ip2, Gap, |ip1|)
    ensures IndexOf(ip1 + Gap + ip2, Gap, 0) == Some(|ip1|)
    ensures SecondPiece(ip1 + Gap + ip2, |ip1|) == ip2
  {
    var ip := ip1 + Gap + ip2;
    assert ip[|ip1|..|ip1| + 2] == Gap;
    forall j: nat | j < |ip1|
      ensures !OccursAt(ip, Gap, j)
    {
      NoGapBefore(ip1, ip2, j);
    }
    forall j: nat | |ip1| + 2 <= j
      ensures !OccursAt(ip, Gap, j)
    {
      NoGapAfter(ip1, ip2, j);
    }
    var r := IndexOf(ip, Gap, 0);
    assert OccursAt(ip, Gap, |ip1|);
    assert r.Some? && r.value == |ip1|;
    assert IndexOf(ip, Gap, |ip1| + 2).None?;
    assert ip[|ip1| + 2..] == ip2;
  }

  /** The eight zero groups Uncompress writes for "::" alone. */
  lemma ZeroAddressGroups()
    ensures Implode(Zeros(8), ':') == "0:0:0:0:0:0:0:0"
  {
    assert Implode(Zeros(1), ':') == "0";
    ZerosSplit(2);
    assert Implode(Zeros(2), ':') == "0:0";
    ZerosSplit(3);
    assert Implode(Zeros(3), ':') == "0:0:0";
    ZerosSplit(4);
    assert Implode(Zeros(4), ':') == "0:0:0:0";
    ZerosSplit(5);
    assert Implode(Zeros(5), ':') == "0:0:0:0:0";
    ZerosSplit(6);
    assert Implode(Zeros(6), ':') == "0:0:0:0:0:0";
    ZerosSplit(7);
    assert Implode(Zeros(7), ':') == "0:0:0:0:0:0:0";
    ZerosSplit(8);
  }

  /** The groups an address with one "::" between ip1 and ip2 stands for:
      those of ip1, the missing zero groups, those of ip2. */
  function Expanded(ip1: Bytes, ip2: Bytes): seq<Bytes>
    requires Missing(ip1, ip2) >= 1
  {
    Pieces(ip1) + Zeros(Missing(ip1, ip2)) + Pieces(ip2)
  }

  /** "::" alone: the literal all-zero address. */
  lemma ExpandBoth(ip1: Bytes, ip2: Bytes)
    requires ip1 == [] && ip2 == []
    ensures Missing(ip1, ip2) == 8
    ensures Expand(ip1 + Gap + ip2, ColonCount(ip1), TailCount(ip2)) ==
            Implode(Expanded(ip1, ip2), ':')
  {
    ZeroAddressGroups();
    assert Expanded(ip1, ip2) == Zeros(8);
  }

  /** "::" at the start: the fill '0:' repeated, then the groups of ip2. */
  lemma ExpandLeading(ip1: Bytes, ip2: Bytes)
    requires ip1 == [] && ip2 != [] && OneGap(ip1, ip2)
    requires Missing(ip1, ip2) >= 1
    ensures Expand(ip1 + Gap + ip2, ColonCount(ip1), TailCount(ip2)) ==
            Implode(Expanded(ip1, ip2), ':')
  {
    var k := Missing(ip1, ip2);
    var fill := Repeat(LeadFill, k);
    assert ip1 + Gap + ip2 == Gap + ip2;
    assert TailCount(ip2) != -1 && 7 - TailCount(ip2) == k;
    assert ReplaceAll(Gap + ip2, Gap, fill) == fill + ip2 by {
      GapStepFill(ip2, fill);
      NoGapUnchanged(ip2, fill);
    }
    LeadingJoin(k, ip2);
    assert Expanded(ip1, ip2) == Zeros(k) + Pieces(ip2);
  }

  lemma LeadingJoin(k: nat, ip2: Bytes)
    requires k >= 1 && ip2 != []
    ensures Repeat(LeadFill, k) + ip2 == Implode(Zeros(k) + Pieces(ip2), ':')
  {
    RepeatZeroColon(k);
    ImplodeConcat(Zeros(k), Pieces(ip2), ':');
    ImplodeExplode(ip2, ':');
  }

  lemma TrailReplace(ip1: Bytes, fill: Bytes)
    requires OneGap(ip1, [])
    ensures ReplaceAll(ip1 + Gap, Gap, fill) == ip1 + fill
  {
    ReplaceColonsConcat(ip1, Gap, fill);
    NoGapUnchanged(ip1, fill);
    ReplaceStep(Gap, Gap, fill);
    assert Gap[2..] == [];
  }

  /** "::" at the end: the groups of ip1, then the fill ':0' repeated. */
  lemma ExpandTrailing(ip1: Bytes, ip2: Bytes)
    requires ip1 != [] && ip2 == [] && OneGap(ip1, ip2)
    requires Missing(ip1, ip2) >= 1
    ensures Expand(ip1 + Gap + ip2, ColonCount(ip1), TailCount(ip2)) ==
            Implode(Expanded(ip1, ip2), ':')
  {
    var k := Missing(ip1, ip2);
    var fill := Repeat(TrailFill, k);
    assert ip1 + Gap + ip2 == ip1 + Gap;
    assert ColonCount(ip1) != -1 && TailCount(ip2) == -1 && 7 - ColonCount(ip1) == k;
    assert ReplaceAll(ip1 + Gap, Gap, fill) == ip1 + fill by {
      TrailReplace(ip1, fill);
    }
    TrailingJoin(ip1, k);
    assert Expanded(ip1, ip2) == Pieces(ip1) + Zeros(k);
  }

  lemma TrailingJoin(ip1: Bytes, k: nat)
    requires ip1 != [] && k >= 1
    ensures ip1 + Repeat(TrailFill, k) == Implode(Pieces(ip1) + Zeros(k), ':')
  {
    RepeatColonZero(k);
    ImplodeExplode(ip1, ':');
    ImplodeConcat(Pieces(ip1), Zeros(k), ':');
  }

  /** "::" inside: the first str_replace writes the fills, the second
      collapses the "::" between them. */
  lemma ExpandInner(ip1: Bytes, ip2: Bytes)
    requires OneGap(ip1, ip2) && ip1 != [] && ip2 != []
    requires Missing(ip1, ip2) >= 1
    ensures Expand(ip1 + Gap + ip2, ColonCount(ip1), TailCount(ip2)) ==
            Implode(Expanded(ip1, ip2), ':')
  {
    var k := Missing(ip1, ip2);
    InnerCounts(ip1, ip2);
    InnerReplaces(ip1, ip2, k);
    InnerJoin(ip1, k, ip2);
  }

  lemma InnerCounts(ip1: Bytes, ip2: Bytes)
    requires ip1 != [] && ip2 != []
    ensures ColonCount(ip1) >= 0 && TailCount(ip2) >= 0
    ensures 6 - TailCount(ip2) - ColonCount(ip1) == Missing(ip1, ip2)
  {
  }

  lemma InnerReplaces(ip1: Bytes, ip2: Bytes, k: nat)
    requires OneGap(ip1, ip2) && ip1 != [] && ip2 != [] && k >= 1
    ensures ReplaceAll(ReplaceAll(ip1 + Gap + ip2, Gap, Repeat(InnerFill, k)), Gap, Colon) ==
            ip1 + Colon + Implode(Zeros(k), ':') + Colon + ip2
  {
    var fill := Repeat(InnerFill, k);
    assert ReplaceAll(ip1 + Gap + ip2, Gap, fill) == ip1 + fill + ip2 by {
      InnerFirstReplace(ip1, ip2, fill);
    }
    InnerSecondReplace(ip1, ip2, k);
  }

  lemma InnerJoin(ip1: Bytes, k: nat, ip2: Bytes)
    requires ip1 != [] && k >= 1 && ip2 != []
    ensures ip1 + Colon + Implode(Zeros(k), ':') + Colon + ip2 ==
            Implode(Pieces(ip1) + Zeros(k) + Pieces(ip2), ':')
  {
    ImplodeConcat(Pieces(ip1), Zeros(k), ':');
    ImplodeConcat(Pieces(ip1) + Zeros(k), Pieces(ip2), ':');
    ImplodeExplode(ip1, ':');
    ImplodeExplode(ip2, ':');
  }

  lemma InnerFirstReplace(ip1: Bytes, ip2: Bytes, fill: Bytes)
    requires OneGap(ip1, ip2) && ip1 != [] && ip2 != []
    ensures ReplaceAll(ip1 + Gap + ip2, Gap, fill) == ip1 + fill + ip2
  {
    var tail := Gap + ip2;
    assert ip1 + Gap + ip2 == ip1 + tail;
    ReplaceColonsConcat(ip1, tail, fill);
    NoGapUnchanged(ip1, fill);
    GapStepFill(ip2, fill);
    NoGapUnchanged(ip2, fill);
    assert ip1 + (fill + ip2) == ip1 + fill + ip2;
  }

  lemma InnerSecondReplace(ip1: Bytes, ip2: Bytes, k: nat)
    requires OneGap(ip1, ip2) && ip1 != [] && ip2 != [] && k >= 1
    ensures ReplaceAll(ip1 + Repeat(InnerFill, k) + ip2, Gap, Colon) ==
            ip1 + Colon + Implode(Zeros(k), ':') + Colon + ip2
  {
    var rest := Repeat(InnerFill, k) + ip2;
    assert ip1 + Repeat(InnerFill, k) + ip2 == ip1 + rest;
    assert rest[0] == ':';
    ReplaceColonsConcat(ip1, rest, Colon);
    NoGapUnchanged(ip1, Colon);
    FillMiddle(k, ip2);
  }

  /** Uncompress expands the "::" of an address without prefix into the
      zero groups that make eight groups in all (an IPv4 tail counting for
      two), whichever side of "::" is empty. */
  lemma UncompressGroups(ip1: Bytes, ip2: Bytes)
    requires OneGap(ip1, ip2) && '/' !in ip1 + Gap + ip2
    requires Missing(ip1, ip2) >= 1
    ensures Uncompress(ip1 + Gap + ip2) == Implode(Expanded(ip1, ip2), ':')
  {
    UncompressGap(ip1, ip2);
    if ip1 == [] && ip2 == [] {
      ExpandBoth(ip1, ip2);
    } else if ip1 == [] {
      ExpandLeading(ip1, ip2);
    } else if ip2 == [] {
      ExpandTrailing(ip1, ip2);
    } else {
      ExpandInner(ip1, ip2);
    }
  }

  /** The groups of the expanded address: those of ip1, the zeros, those
      of ip2; eight of them, or seven when ip2 ends in an IPv4 tail. */
  lemma UncompressEightGroups(ip1: Bytes, ip2: Bytes)
    requires OneGap(ip1, ip2) && '/' !in ip1 + Gap + ip2
    requires Missing(ip1, ip2) >= 1
    ensures Explode(Uncompress(ip1 + Gap + ip2), ':') == Expanded(ip1, ip2)
    ensures |Explode(Uncompress(ip1 + Gap + ip2), ':')| == 8 - (if '.' in ip2 then 1 else 0)
  {
    UncompressGroups(ip1, ip2);
    ExpandedColonFree(ip1, ip2);
    ExplodeImplode(Expanded(ip1, ip2), ':');
  }

  lemma ExpandedColonFree(ip1: Bytes, ip2: Bytes)
    requires Missing(ip1, ip2) >= 1
    ensures |Expanded(ip1, ip2)| == 8 - (if '.' in ip2 then 1 else 0)
    ensures forall g :: 0 <= g < |Expanded(ip1, ip2)| ==> ':' !in Expanded(ip1, ip2)[g]
  {
    var k := Missing(ip1, ip2);
    var p1, z, p2 := Pieces(ip1), Zeros(k), Pieces(ip2);
    var groups := p1 + z + p2;
    assert Expanded(ip1, ip2) == groups;
    forall g | 0 <= g < |groups|
      ensures ':' !in groups[g]
    {
      if g < |p1| {
        assert groups[g] == p1[g];
      } else if g < |p1| + k {
        assert groups[g] == z[g - |p1|] == "0";
      } else {
        assert groups[g] == p2[g - |p1| - k];
      }
    }
  }

  // ---------------------------------------------------------------------
  // The "/prefix" miscount, and the composition that avoids it

  /** Uncompress counts the groups after "::" on the text with its prefix,
      so "g::/n" counts "/n" as one group: the fill is one zero group short
      and the address ends in ':' (an empty eighth group). */
  lemma PrefixMiscount(g: Bytes, n: Bytes)
    requires g != [] && ':' !in g && '/' !in g
    requires ':' !in n && '.' !in n
    ensures Explode(Uncompress(g + Gap + ['/'] + n), ':') == [g] + Zeros(6) + [[]]
  {
    var text := g + Colon + Implode(Zeros(6), ':') + Colon;
    PrefixText(g, n);
    assert text == Implode([g] + Zeros(6) + [[]], ':') by {
      ImplodeConcat([g], Zeros(6), ':');
      ImplodeConcat([g] + Zeros(6), [[]], ':');
    }
    var groups := [g] + Zeros(6) + [[]];
    forall i | 0 <= i < |groups|
      ensures ':' !in groups[i]
    {
      if 1 <= i <= 6 {
        assert groups[i] == "0";
      }
    }
    ExplodeImplode(groups, ':');
  }

  lemma PrefixText(g: Bytes, n: Bytes)
    requires g != [] && ':' !in g && '/' !in g
    requires ':' !in n && '.' !in n
    ensures Uncompress(g + Gap + ['/'] + n) == g + Colon + Implode(Zeros(6), ':') + Colon
  {
    var ip2 := ['/'] + n;
    var ip := g + Gap + ip2;
    assert g + Gap + ['/'] + n == ip;
    var fill := Repeat(InnerFill, 6);
    assert Uncompress(ip) == Expand(g + Gap, 0, 0) by {
      PrefixCounts(g, n);
    }
    assert Expand(g + Gap, 0, 0) == ReplaceAll(ReplaceAll(g + Gap, Gap, fill), Gap, Colon);
    assert ReplaceAll(g + Gap, Gap, fill) == g + fill by {
      ColonFree(g);
      TrailReplace(g, fill);
    }
    assert ReplaceAll(g + fill, Gap, Colon) == g + Colon + Implode(Zeros(6), ':') + Colon by {
      FillAtEnd(g, 6);
    }
  }

  lemma ColonFree(s: Bytes)
    requires ':' !in s
    ensures NoDoubleColon(s) && OneGap(s, [])
  {
  }

  /** The positions and counts Uncompress reads from "g::/n". */
  lemma PrefixCounts(g: Bytes, n: Bytes)
    requires g != [] && ':' !in g && '/' !in g
    requires ':' !in n && '.' !in n
    ensures Uncompress(g + Gap + (['/'] + n)) == Expand(g + Gap, 0, 0)
  {
    var ip2 := ['/'] + n;
    var ip := g + Gap + ip2;
    PrefixGap(g, ip2);
    UncompressAt(ip, |g|);
    PrefixCut(g, n);
    assert ColonCount(ip[..|g|]) == 0 by {
      assert ip[..|g|] == g;
      CountZero(g, ':');
    }
    assert TailCount(ip2) == 0 by {
      CountZero(ip2, ':');
      assert '.' !in ip2;
    }
  }

  lemma PrefixGap(g: Bytes, ip2: Bytes)
    requires g != [] && ':' !in g && ':' !in ip2
    ensures IndexOf(g + Gap + ip2, Gap, 0) == Some(|g|) && SecondPiece(g + Gap + ip2, |g|) == ip2
  {
    ColonFree(g);
    ColonFree(ip2);
    GapFound(g, ip2);
  }

  lemma PrefixCut(g: Bytes, n: Bytes)
    requires ':' !in g && '/' !in g
    ensures RemoveNetmaskSpec(g + Gap + (['/'] + n)) == g + Gap
  {
    assert g + Gap + (['/'] + n) == (g + Gap) + ['/'] + n;
    NetmaskCut(g + Gap, n);
  }

  /** Uncompress once strpos has found the first "::" at i. */
  lemma UncompressAt(ip: Bytes, i: nat)
    requires IndexOf(ip, Gap, 0) == Some(i)
    ensures OccursAt(ip, Gap, i)
    ensures Uncompress(ip) ==
            Expand(RemoveNetmaskSpec(ip), ColonCount(ip[..i]),
                   TailCount(SecondPiece(ip, i)))
  {
  }

  /** The second replacement on fills at the very end of the text. */
  lemma FillAtEnd(g: Bytes, k: nat)
    requires g != [] && ':' !in g && k >= 1
    ensures ReplaceAll(g + Repeat(InnerFill, k), Gap, Colon) ==
            g + Colon + Implode(Zeros(k), ':') + Colon
  {
    var fill := Repeat(InnerFill, k);
    assert fill + [] == fill;
    InnerSplit(k, []);
    ColonFree(g);
    ReplaceColonsConcat(g, fill, Colon);
    NoGapUnchanged(g, Colon);
    FillMiddle(k, []);
  }

  /** Uncompress applied to the address with its prefix removed first, as
      SplitV64 does: the "::" then always stands for the right number of
      zero groups. */
  function UncompressAddress(ip: Bytes): (r: Bytes)
    ensures '/' !in ip ==> r == Uncompress(ip)
  {
    Uncompress(RemoveNetmaskSpec(ip))
  }

  /** Whatever prefix follows the address, the expansion has the groups of
      ip1, the zeros and the groups of ip2: eight, an IPv4 tail counting
      for two. */
  lemma UncompressAddressGroups(ip1: Bytes, ip2: Bytes, prefix: Bytes)
    requires OneGap(ip1, ip2) && '/' !in ip1 + Gap + ip2
    requires Missing(ip1, ip2) >= 1
    ensures Explode(UncompressAddress(ip1 + Gap + ip2 + ['/'] + prefix), ':') ==
            Pieces(ip1) + Zeros(Missing(ip1, ip2)) + Pieces(ip2)
    ensures |Explode(UncompressAddress(ip1 + Gap + ip2 + ['/'] + prefix), ':')| ==
            8 - (if '.' in ip2 then 1 else 0)
  {
    NetmaskCut(ip1 + Gap + ip2, prefix);
    UncompressEightGroups(ip1, ip2);
  }
}
