/** Normal forms the setters store and what later steps do to them:
    remove_dot_segments keeps a normal path normal, and the lower-casing
    normaliser set_host uses leaves its own output alone. */
module NormalForms {
  import opened Text
  import opened PctEncoding
  import DotSegments

  // ---------------------------------------------------------------------
  // remove_dot_segments keeps normal form

  /** Normal text cut where a '/' stands (or at its end) is normal on both
      sides: a '/' is never one of a triplet's digits. */
  lemma {:induction false} NormalSplit(s: Bytes, cs: CharSet, k: nat)
    requires Normal(s, cs) && k <= |s| && (k == |s| || s[k] == '/')
    ensures Normal(s[..k], cs) && Normal(s[k..], cs)
    decreases |s|
  {
    if k == 0 {
      assert s[0..] == s;
    } else {
      var n := if Allowed(cs, s[0]) then 1 else 3;
      NormalHead(s, cs);
      assert n <= k;
      NormalSplit(s[n..], cs, k - n);
      assert s[n..][..k - n] == s[n..k] && s[n..][k - n..] == s[k..];
      NormalConcat(s[..n], s[n..k], cs);
      assert s[..n] + s[n..k] == s[..k];
    }
  }

  /** The first byte or triplet of normal text, and what follows it, are
      normal; a triplet's digits are not '/'. */
  lemma NormalHead(s: Bytes, cs: CharSet)
    requires Normal(s, cs) && s != []
    ensures var n := if Allowed(cs, s[0]) then 1 else 3;
            n <= |s| && Normal(s[..n], cs) && Normal(s[n..], cs) &&
            (n == 3 ==> s[1] != '/' && s[2] != '/')
  {
    if Allowed(cs, s[0]) {
      NormalAllowed(s[..1], cs);
    } else {
      NormalTriplet(s[1..3], cs);
      assert s[..3] == "%" + s[1..3];
    }
  }

  /** What follows a '/' at k of normal text is normal. */
  lemma AfterSlash(s: Bytes, cs: CharSet, k: nat)
    requires Normal(s, cs) && k < |s| && s[k] == '/' && Allowed(cs, '/')
    ensures Normal(s[k + 1..], cs)
  {
    NormalSplit(s, cs, k);
    assert s[k..][1..] == s[k + 1..];
  }

  lemma SlashNormal(cs: CharSet)
    requires Allowed(cs, '/')
    ensures Normal(DotSegments.Slash, cs)
  {
    assert DotSegments.Slash[1..] == [];
  }

  lemma DropKeepsNormal(output: Bytes, cs: CharSet)
    requires Normal(output, cs)
    ensures Normal(DotSegments.DropLastSegment(output), cs)
  {
    var r := DotSegments.DropLastSegment(output);
    if '/' in output {
      NormalSplit(output, cs, |r|);
    }
  }

  /** One pass of the loop keeps both buffers normal. */
  lemma StepKeepsNormal(b: DotSegments.Buffers, cs: CharSet)
    requires b.input != [] && Normal(b.input, cs) && Normal(b.output, cs) && Allowed(cs, '/')
    ensures Normal(DotSegments.Step(b).input, cs) && Normal(DotSegments.Step(b).output, cs)
  {
    if Skips(b.input) {
      SkipKeepsNormal(b, cs);
    } else {
      DropKeepsBuffersNormal(b, cs);
    }
  }

  /** The steps of the loop that only shorten the input. */
  predicate Skips(input: Bytes)
  {
    StartsWith(input, DotSegments.DotDotSlash) || StartsWith(input, DotSegments.DotSlash) ||
    StartsWith(input, DotSegments.SlashDotSlash) || input == DotSegments.SlashDot
  }

  lemma SkipKeepsNormal(b: DotSegments.Buffers, cs: CharSet)
    requires b.input != [] && Normal(b.input, cs) && Normal(b.output, cs) && Allowed(cs, '/')
    requires Skips(b.input)
    ensures Normal(DotSegments.Step(b).input, cs) && DotSegments.Step(b).output == b.output
  {
    var input := b.input;
    if StartsWith(input, DotSegments.DotDotSlash) {
      AfterSlash(input, cs, 2);
    } else if StartsWith(input, DotSegments.DotSlash) {
      AfterSlash(input, cs, 1);
    } else if StartsWith(input, DotSegments.SlashDotSlash) {
      NormalSplit(input, cs, 2);
      assert DotSegments.Slash + input[3..] == input[2..];
    } else {
      SlashNormal(cs);
    }
  }

  lemma DropKeepsBuffersNormal(b: DotSegments.Buffers, cs: CharSet)
    requires b.input != [] && Normal(b.input, cs) && Normal(b.output, cs) && Allowed(cs, '/')
    requires !Skips(b.input)
    ensures Normal(DotSegments.Step(b).input, cs) && Normal(DotSegments.Step(b).output, cs)
  {
    var input := b.input;
    if StartsWith(input, DotSegments.SlashDotDotSlash) {
      DropKeepsNormal(b.output, cs);
      NormalSplit(input, cs, 3);
      assert DotSegments.Slash + input[4..] == input[3..];
    } else if input == DotSegments.SlashDotDot {
      DropKeepsNormal(b.output, cs);
      SlashNormal(cs);
    } else if input == DotSegments.Dot || input == DotSegments.DotDot {
    } else {
      MoveKeepsNormal(b, cs);
    }
  }

  /** Moving the first segment to the output keeps both buffers normal. */
  lemma MoveKeepsNormal(b: DotSegments.Buffers, cs: CharSet)
    requires b.input != [] && Normal(b.input, cs) && Normal(b.output, cs)
    ensures Normal(DotSegments.MoveSegment(b).input, cs) && Normal(DotSegments.MoveSegment(b).output, cs)
  {
    match IndexOfChar(b.input, '/', 1)
    case Some(pos) =>
      NormalSplit(b.input, cs, pos);
      NormalConcat(b.output, b.input[..pos], cs);
    case None =>
      NormalConcat(b.output, b.input, cs);
  }

  lemma {:induction false} LoopKeepsNormal(b: DotSegments.Buffers, cs: CharSet)
    requires Normal(b.input, cs) && Normal(b.output, cs) && Allowed(cs, '/')
    ensures Normal(DotSegments.Loop(b), cs)
    decreases |b.input|
  {
    if DotSegments.HasDots(b.input) {
      assert b.input != [];
      StepKeepsNormal(b, cs);
      LoopKeepsNormal(DotSegments.Step(b), cs);
    } else {
      NormalConcat(b.output, b.input, cs);
    }
  }

  /** remove_dot_segments turns a normal path into a normal path. */
  lemma RemovedNormal(path: Bytes, cs: CharSet)
    requires Normal(path, cs) && Allowed(cs, '/')
    ensures Normal(DotSegments.RemoveDotSegments(path), cs)
  {
    LoopKeepsNormal(DotSegments.Buffers(path, []), cs);
  }

  // ---------------------------------------------------------------------
  // The lower-casing normaliser leaves its own output alone

  /** No upper-case letter except among the digits of %HH triplets. */
  predicate Lowered(t: Bytes)
    decreases |t|
  {
    t == [] ||
    (!IsUpper(t[0]) && Lowered(t[1..])) ||
    (|t| >= 3 && t[0] == '%' && IsHexDigit(t[1]) && IsHexDigit(t[2]) && Lowered(t[3..]))
  }

  lemma {:induction false} LoweredConcat(a: Bytes, b: Bytes)
    requires Lowered(a) && Lowered(b)
    ensures Lowered(a + b)
    decreases |a|
  {
    if a == [] {
      assert a + b == b;
    } else if !IsUpper(a[0]) && Lowered(a[1..]) {
      LoweredConcat(a[1..], b);
      assert (a + b)[1..] == a[1..] + b;
    } else {
      LoweredConcat(a[3..], b);
      assert (a + b)[3..] == a[3..] + b;
    }
  }

  /** Text with no upper-case letter at all. */
  lemma {:induction false} LowerIsLowered(t: Bytes)
    requires forall i :: 0 <= i < |t| ==> !IsUpper(t[i])
    ensures Lowered(t)
    decreases |t|
  {
    if t != [] {
      LowerIsLowered(t[1..]);
    }
  }

  /** A %HH triplet, whatever the case of its digits. */
  lemma TripletLowered(t: Bytes)
    requires |t| == 3 && t[0] == '%' && IsHexDigit(t[1]) && IsHexDigit(t[2])
    ensures Lowered(t)
  {
    assert t[3..] == [];
  }

  /** A byte other than '%' at the head is a token of its own. */
  lemma LoweredHead(t: Bytes)
    requires Lowered(t) && t != [] && t[0] != '%'
    ensures !IsUpper(t[0]) && Lowered(t[1..])
  {
  }

  /** A '%' followed by two hex digits can be stepped over. */
  lemma LoweredTriplet(t: Bytes)
    requires Lowered(t) && |t| >= 3 && t[0] == '%' && IsHexDigit(t[1]) && IsHexDigit(t[2])
    ensures Lowered(t[3..])
  {
    if !IsUpper(t[0]) && Lowered(t[1..]) {
      LoweredHead(t[1..]);
      assert t[1..][1..] == t[2..];
      LoweredHead(t[2..]);
      assert t[2..][1..] == t[3..];
    }
  }

  /** A '%' that starts no triplet can be stepped over. */
  lemma LoweredPercent(t: Bytes)
    requires Lowered(t) && t != [] && t[0] == '%'
    requires !(|t| >= 3 && IsHexDigit(t[1]) && IsHexDigit(t[2]))
    ensures Lowered(t[1..])
  {
  }

  /** Replacing a byte that is neither '%' nor a hex digit by a triplet
      keeps text lowered. */
  lemma {:induction false} LoweredReplace(t: Bytes, c: Byte, rep: Bytes)
    requires Lowered(t) && Lowered(rep) && c != '%' && !IsHexDigit(c)
    ensures Lowered(ReplaceAll(t, [c], rep))
    decreases |t|
  {
    if t == [] {
    } else if !IsUpper(t[0]) && Lowered(t[1..]) {
      var head := if t[0] == c then rep else [t[0]];
      assert ReplaceAll(t, [c], rep) == head + ReplaceAll(t[1..], [c], rep);
      LoweredReplace(t[1..], c, rep);
      if t[0] != c {
        LowerIsLowered([t[0]]);
      }
      LoweredConcat(head, ReplaceAll(t[1..], [c], rep));
    } else {
      var three := t[..3];
      assert t == three + t[3..];
      ReplaceByteConcat(three, t[3..], c, rep);
      ReplaceByteAbsent(three, c, rep);
      TripletLowered(three);
      LoweredReplace(t[3..], c, rep);
      LoweredConcat(three, ReplaceAll(t[3..], [c], rep));
    }
  }

  /** The invariant of the lower-casing loop: the part before $position
      and the part after it are each lowered, and the first is normal. */
  predicate LowerProgress(s: Bytes, cs: CharSet, position: nat)
  {
    position <= |s| && Normal(s[..position], cs) && Lowered(s[..position]) && Lowered(s[position..])
  }

  lemma SkipKeepsLowered(s: Bytes, cs: CharSet, p: nat)
    requires LowerProgress(s, cs, p) && p < |s| && Allowed(cs, s[p])
    ensures LowerProgress(s, cs, p + 1)
  {
    AllowedKeepsNormal(s, cs, p);
    LoweredHead(s[p..]);
    assert s[p..][1..] == s[p + 1..];
    LowerIsLowered([s[p]]);
    LoweredConcat(s[..p], [s[p]]);
    assert s[..p + 1] == s[..p] + [s[p]];
  }

  lemma DecodeKeepsLowered(s: Bytes, cs: CharSet, p: nat, x: Byte)
    requires LowerProgress(s, cs, p) && p + 3 <= |s| && s[p] == '%'
    requires IsHexDigit(s[p + 1]) && IsHexDigit(s[p + 2])
    requires Allowed(cs, x) && !IsUpper(x)
    ensures var r := DecodeTriplet(s, cs, p, x);
            LowerProgress(r.0, cs, r.1)
  {
    DecodeKeepsNormal(s, cs, p, x);
    var t := s[..p] + [x] + s[p + 3..];
    assert t[..p + 1] == s[..p] + [x] && t[p + 1..] == s[p + 3..];
    LoweredTriplet(s[p..]);
    assert s[p..][3..] == s[p + 3..];
    LowerIsLowered([x]);
    LoweredConcat(s[..p], [x]);
  }

  lemma UpperKeepsLowered(s: Bytes, cs: CharSet, p: nat)
    requires LowerProgress(s, cs, p) && p + 3 <= |s| && s[p] == '%'
    requires IsHexDigit(s[p + 1]) && IsHexDigit(s[p + 2]) && !Allowed(cs, Chr(s[p + 1..p + 3]))
    ensures var r := UpperTriplet(s, cs, p);
            LowerProgress(r.0, cs, r.1)
  {
    UpperKeepsNormal(s, cs, p);
    var two := s[p + 1..p + 3];
    var t := s[..p + 1] + Upper(two) + s[p + 3..];
    var triplet := [s[p]] + Upper(two);
    assert t[..p + 3] == s[..p] + triplet && t[p + 3..] == s[p + 3..];
    LoweredTriplet(s[p..]);
    assert s[p..][3..] == s[p + 3..];
    TripletLowered(triplet);
    LoweredConcat(s[..p], triplet);
  }

  lemma EscapeKeepsLowered(s: Bytes, cs: CharSet, p: nat)
    requires LowerProgress(s, cs, p) && p < |s| && s[p] == '%'
    requires !(p + 2 < |s| && IsHexDigit(s[p + 1]) && IsHexDigit(s[p + 2]))
    ensures var r := EscapePercent(s, cs, p);
            LowerProgress(r.0, cs, r.1)
  {
    EscapeKeepsNormal(s, cs, p);
    var t := s[..p] + Escape + s[p + 1..];
    assert t[..p + 3] == s[..p] + Escape && t[p + 3..] == s[p + 1..];
    LoweredPercent(s[p..]);
    assert s[p..][1..] == s[p + 1..];
    LowerIsLowered(Escape);
    LoweredConcat(s[..p], Escape);
  }

  lemma EncodeKeepsLowered(s: Bytes, cs: CharSet, p: nat)
    requires LowerProgress(s, cs, p) && p < |s| && !Allowed(cs, s[p]) && s[p] != '%'
    ensures var r := EncodeByte(s, cs, p);
            LowerProgress(r.0, cs, r.1)
  {
    EncodeKeepsNormal(s, cs, p);
    EncodePrefix(s, cs, p);
    var c := s[p];
    var tail := ReplaceAll(s[p..], [c], Triplet(c));
    SliceConcat(s[..p], tail, p);
    assert s[..p][..p] == s[..p] && s[..p][p..] == [];
    assert [] + tail == tail;
    TripletLowered(Triplet(c));
    assert !IsHexDigit(c);
    LoweredReplace(s[p..], c, Triplet(c));
  }

  /** One lower-casing pass keeps the invariant. */
  lemma PassKeepsLowered(s: Bytes, cs: CharSet, p: nat)
    requires LowerProgress(s, cs, p) && p < |s| && !Allowed(cs, s[p])
    ensures var r := NormalizePass(s, cs, Lowercase, p);
            LowerProgress(r.0, cs, r.1)
  {
    if s[p] == '%' {
      if p + 2 < |s| && IsHexDigit(s[p + 1]) && IsHexDigit(s[p + 2]) {
        var chr := Chr(s[p + 1..p + 3]);
        if Allowed(cs, chr) {
          RecaseAllowed(cs, Lowercase, chr);
          DecodeKeepsLowered(s, cs, p, LowerChar(chr));
        } else {
          UpperKeepsLowered(s, cs, p);
        }
      } else {
        EscapeKeepsLowered(s, cs, p);
      }
    } else {
      EncodeKeepsLowered(s, cs, p);
    }
  }

  lemma {:induction false} NormalizeFromLowered(s: Bytes, cs: CharSet, position: nat)
    requires LowerProgress(s, cs, position)
    ensures Lowered(NormalizeFrom(s, cs, Lowercase, position))
    decreases Bad(s, cs), |s| - position
  {
    if position == |s| {
      assert s[..position] == s;
    } else if Allowed(cs, s[position]) {
      SkipKeepsLowered(s, cs, position);
      NormalizeFromLowered(s, cs, position + 1);
    } else {
      PassKeepsLowered(s, cs, position);
      var r := NormalizePass(s, cs, Lowercase, position);
      NormalizeFromLowered(r.0, cs, r.1);
    }
  }

  /** The lower-casing normaliser's output is lowered. */
  lemma NormalizedLowered(str: Bytes, cs: CharSet)
    ensures Lowered(Normalized(str, cs, Lowercase))
  {
    var s := Recase(Lowercase, str);
    LowerIsLowered(s);
    assert s[..0] == [] && s[0..] == s;
    NormalizeFromLowered(s, cs, 0);
  }

  /** The digits of a normal triplet, lower-cased and upper-cased again. */
  lemma DigitsBack(two: Bytes)
    requires |two| == 2 && UpperHexPair(two[0], two[1])
    ensures Upper(Lower(two)) == two
    ensures IsHexDigit(Lower(two)[0]) && IsHexDigit(Lower(two)[1])
  {
  }

  /** From $position on, the scan meets the lower-cased s and rewrites it
      back into s. */
  lemma {:induction false} LoweredFixed(s: Bytes, t: Bytes, cs: CharSet, position: nat)
    requires position <= |s| == |t| && t[..position] == s[..position] && t[position..] == Lower(s[position..])
    requires Normal(s[position..], cs) && Lowered(s[position..])
    ensures NormalizeFrom(t, cs, Lowercase, position) == s
    decreases |s| - position
  {
    var p := position;
    if p == |s| {
      assert t == t[..p] && s == s[..p];
    } else if Allowed(cs, s[p]) {
      FixedSkip(s, t, cs, p);
      LoweredFixed(s, t, cs, p + 1);
    } else {
      var t' := FixedTriplet(s, t, cs, p);
      LoweredFixed(s, t', cs, p + 3);
    }
  }

  /** An allowed byte is lower-case already, so the scan steps over it. */
  lemma FixedSkip(s: Bytes, t: Bytes, cs: CharSet, p: nat)
    requires p < |s| == |t| && t[..p] == s[..p] && t[p..] == Lower(s[p..])
    requires Normal(s[p..], cs) && Lowered(s[p..]) && Allowed(cs, s[p])
    ensures Allowed(cs, t[p]) && t[..p + 1] == s[..p + 1] && t[p + 1..] == Lower(s[p + 1..])
    ensures Normal(s[p + 1..], cs) && Lowered(s[p + 1..])
  {
    var u := s[p..];
    assert u[0] == s[p] && u[1..] == s[p + 1..];
    LoweredHead(u);
    assert t[p] == LowerChar(s[p]) == s[p];
    assert t[p + 1..] == t[p..][1..];
  }

  /** A normal triplet reaches the scan with lower-case digits, still
      stands for a byte that is not allowed, and gets its upper-case
      digits back. */
  lemma FixedTriplet(s: Bytes, t: Bytes, cs: CharSet, p: nat) returns (t': Bytes)
    requires p < |s| == |t| && t[..p] == s[..p] && t[p..] == Lower(s[p..])
    requires Normal(s[p..], cs) && Lowered(s[p..]) && !Allowed(cs, s[p])
    ensures p + 3 <= |s| && !Allowed(cs, t[p]) && NormalizePass(t, cs, Lowercase, p) == (t', p + 3)
    ensures |t'| == |s| && t'[..p + 3] == s[..p + 3] && t'[p + 3..] == Lower(s[p + 3..])
    ensures Normal(s[p + 3..], cs) && Lowered(s[p + 3..])
  {
    var u := s[p..];
    assert u[0] == s[p] && u[1..3] == s[p + 1..p + 3] && u[3..] == s[p + 3..];
    var two := s[p + 1..p + 3];
    DigitsBack(two);
    assert t[p] == '%';
    assert t[p + 1..p + 3] == Lower(two);
    UpperPair(Lower(two));
    LoweredTriplet(u);
    t' := t[..p + 1] + Upper(t[p + 1..p + 3]) + t[p + 3..];
    assert t'[..p + 3] == s[..p + 3];
    assert t[p + 3..] == t[p..][3..];
  }

  /** Lower-casing normalisation is idempotent: a second call gives back
      what the first one produced. */
  lemma LowercaseIdempotent(str: Bytes, cs: CharSet)
    ensures var n := Normalized(str, cs, Lowercase);
            Normalized(n, cs, Lowercase) == n
  {
    var n := Normalized(str, cs, Lowercase);
    NormalizedIsNormal(str, cs, Lowercase);
    NormalizedLowered(str, cs);
    assert n[0..] == n && n[..0] == [];
    LoweredFixed(n, Lower(n), cs, 0);
  }

  /** Normal text stays tame once lower-cased: a triplet's digits stay hex
      digits of the same value, so the loop as written treats it as the
      corrected normaliser does. */
  lemma {:induction false} NormalLowerTame(s: Bytes, cs: CharSet)
    requires Normal(s, cs)
    ensures Tame(Recase(Lowercase, s), cs)
    decreases |s|
  {
    if s != [] {
      var t := Recase(Lowercase, s);
      var n := if Allowed(cs, s[0]) then 1 else 3;
      NormalLowerTame(s[n..], cs);
      assert t[n..] == Recase(Lowercase, s[n..]);
      if n == 1 {
        RecaseAllowed(cs, Lowercase, s[0]);
      } else {
        var two := s[1..3];
        DigitsBack(two);
        assert t[1..3] == Lower(two);
        HexdecUpper(Lower(two));
        assert Chr(t[1..3]) == Chr(two);
        assert TripletHead(t);
      }
    }
  }
}
