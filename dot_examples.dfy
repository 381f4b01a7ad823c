/** The two worked examples of section 5.2.4 of RFC 3986, followed step by
    step through the loop. */
module DotExamples {
  import opened Text
  import opened DotSegments

  /** A segment that step E moves whole: it does not begin with '.', has no
      '/' after its first byte, and an absolute one is not "/." or "/..". */
  predicate PlainSegment(seg: Bytes)
  {
    seg != [] && seg[0] != '.' &&
    (forall j :: 1 <= j < |seg| ==> seg[j] != '/') &&
    (seg[0] == '/' && |seg| > 1 ==> seg[1] != '.')
  }

  lemma ContainsAt(s: Bytes, pat: Bytes, k: nat)
    requires |pat| > 0 && OccursAt(s, pat, k)
    ensures Contains(s, pat)
  {
  }

  lemma ContainsShift(a: Bytes, s: Bytes, pat: Bytes)
    requires |pat| > 0 && Contains(s, pat)
    ensures Contains(a + s, pat)
  {
    var k := IndexOf(s, pat, 0).value;
    assert (a + s)[|a| + k..|a| + k + |pat|] == s[k..k + |pat|];
    ContainsAt(a + s, pat, |a| + k);
  }

  lemma HasDotsShift(a: Bytes, s: Bytes)
    requires HasDots(s) && s != [] && s[0] == '/'
    ensures HasDots(a + s)
  {
    if Contains(s, DotSlash) {
      ContainsShift(a, s, DotSlash);
    } else {
      ContainsShift(a, s, SlashDot);
    }
  }

  lemma PlainNoDots(seg: Bytes)
    requires PlainSegment(seg)
    ensures !HasDots(seg)
  {
    forall j: nat | j + 2 <= |seg|
      ensures !OccursAt(seg, DotSlash, j) && !OccursAt(seg, SlashDot, j)
    {
      assert seg[j..j + 2][1] == seg[j + 1] != '/';
      if j > 0 {
        assert seg[j..j + 2][0] == seg[j] != '/';
      } else if seg[0] == '/' {
        assert seg[j..j + 2][1] != '.';
      }
    }
  }

  /** Step E moves a plain segment to the output. */
  lemma LoopMove(seg: Bytes, rest: Bytes, out: Bytes)
    requires PlainSegment(seg) && rest != [] && rest[0] == '/' && HasDots(rest)
    ensures Loop(Buffers(seg + rest, out)) == Loop(Buffers(rest, out + seg))
  {
    HasDotsShift(seg, rest);
    StepMove(seg, rest, out);
  }

  lemma StepMove(seg: Bytes, rest: Bytes, out: Bytes)
    requires PlainSegment(seg) && rest != [] && rest[0] == '/'
    ensures Step(Buffers(seg + rest, out)) == Buffers(rest, out + seg)
  {
    var input := seg + rest;
    FirstSlash(seg, rest);
    assert input[|seg|..] == rest && input[..|seg|] == seg;
    assert !StartsWith(input, SlashDotSlash) && !StartsWith(input, SlashDotDotSlash);
  }

  lemma FirstSlash(seg: Bytes, rest: Bytes)
    requires PlainSegment(seg) && rest != [] && rest[0] == '/'
    ensures IndexOfChar(seg + rest, '/', 1) == Some(|seg|)
  {
    var input := seg + rest;
    var r := IndexOfChar(input, '/', 1);
    assert input[|seg|] == '/';
    if |seg| == 1 {
      assert r.Some?;
    } else {
      assert forall j :: 1 <= j < |seg| ==> input[j] == seg[j];
      assert r.Some?;
    }
  }

  /** Step B: "/." before a '/' becomes "/". */
  lemma LoopSlashDot(rest: Bytes, out: Bytes)
    requires rest != [] && rest[0] == '/'
    ensures Loop(Buffers(SlashDot + rest, out)) == Loop(Buffers(rest, out))
  {
    ContainsAt(SlashDot + rest, SlashDot, 0);
    StepSlashDot(rest, out);
  }

  lemma StepSlashDot(rest: Bytes, out: Bytes)
    requires rest != [] && rest[0] == '/'
    ensures Step(Buffers(SlashDot + rest, out)) == Buffers(rest, out)
  {
    var input := SlashDot + rest;
    assert input[..3] == SlashDotSlash;
    assert Slash + input[3..] == rest;
  }

  /** Step C: "/.." before a '/' becomes "/" and drops a segment of the output. */
  lemma LoopSlashDotDot(rest: Bytes, out: Bytes)
    requires rest != [] && rest[0] == '/'
    ensures Loop(Buffers(SlashDotDot + rest, out)) == Loop(Buffers(rest, DropLastSegment(out)))
  {
    ContainsAt(SlashDotDot + rest, SlashDot, 0);
    StepSlashDotDot(rest, out);
  }

  lemma StepSlashDotDot(rest: Bytes, out: Bytes)
    requires rest != [] && rest[0] == '/'
    ensures Step(Buffers(SlashDotDot + rest, out)) == Buffers(rest, DropLastSegment(out))
  {
    var input := SlashDotDot + rest;
    assert input[..4] == SlashDotDotSlash;
    assert !StartsWith(input, SlashDotSlash);
    assert Slash + input[4..] == rest;
  }

  /** The loop stops at a plain segment. */
  lemma LoopEnd(seg: Bytes, out: Bytes)
    requires PlainSegment(seg)
    ensures Loop(Buffers(seg, out)) == out + seg
  {
    PlainNoDots(seg);
  }

  /** Dropping the last segment of out + seg gives out back. */
  lemma DropSegment(out: Bytes, seg: Bytes)
    requires PlainSegment(seg) && seg[0] == '/'
    ensures DropLastSegment(out + seg) == out
  {
    var s := out + seg;
    assert s[|out|] == '/';
    var r := DropLastSegment(s);
    assert forall j :: |out| < j < |s| ==> s[j] != '/' by {
      forall j | |out| < j < |s| ensures s[j] != '/' {
        assert s[j] == seg[j - |out|];
      }
    }
  }

  /** "/.." then a last segment, after a segment b of the output. */
  lemma UpThenEnd(out: Bytes, b: Bytes, g: Bytes)
    requires PlainSegment(b) && b[0] == '/' && PlainSegment(g) && g[0] == '/'
    ensures Loop(Buffers(SlashDotDot + g, out + b)) == out + g
  {
    LoopSlashDotDot(g, out + b);
    DropSegment(out, b);
    LoopEnd(g, out);
  }

  /** "/.." twice, after segments b and c of the output. */
  lemma TwiceUp(out: Bytes, b: Bytes, c: Bytes, g: Bytes)
    requires PlainSegment(b) && b[0] == '/' && PlainSegment(c) && c[0] == '/'
    requires PlainSegment(g) && g[0] == '/'
    ensures Loop(Buffers(SlashDotDot + (SlashDotDot + g), out + b + c)) == out + g
  {
    LoopSlashDotDot(SlashDotDot + g, out + b + c);
    DropSegment(out + b, c);
    UpThenEnd(out, b, g);
  }

  lemma DotThenTwiceUp(out: Bytes, b: Bytes, c: Bytes, g: Bytes)
    requires PlainSegment(b) && b[0] == '/' && PlainSegment(c) && c[0] == '/'
    requires PlainSegment(g) && g[0] == '/'
    ensures Loop(Buffers(SlashDot + (SlashDotDot + (SlashDotDot + g)), out + b + c)) == out + g
  {
    LoopSlashDot(SlashDotDot + (SlashDotDot + g), out + b + c);
    TwiceUp(out, b, c, g);
  }

  lemma MoveThenDots(out: Bytes, b: Bytes, c: Bytes, g: Bytes)
    requires PlainSegment(b) && b[0] == '/' && PlainSegment(c) && c[0] == '/'
    requires PlainSegment(g) && g[0] == '/'
    ensures Loop(Buffers(c + (SlashDot + (SlashDotDot + (SlashDotDot + g))), out + b)) == out + g
  {
    var tail := SlashDot + (SlashDotDot + (SlashDotDot + g));
    ContainsAt(tail, SlashDot, 0);
    LoopMove(c, tail, out + b);
    DotThenTwiceUp(out, b, c, g);
  }

  /** The shape of the first example: three segments, "/.", twice "/..",
      then a last segment. */
  lemma FirstShape(a: Bytes, b: Bytes, c: Bytes, g: Bytes)
    requires PlainSegment(a) && PlainSegment(b) && PlainSegment(c) && PlainSegment(g)
    requires a[0] == '/' && b[0] == '/' && c[0] == '/' && g[0] == '/'
    ensures RemoveDotSegments(a + (b + (c + (SlashDot + (SlashDotDot + (SlashDotDot + g)))))) == a + g
  {
    var tail := SlashDot + (SlashDotDot + (SlashDotDot + g));
    ContainsAt(tail, SlashDot, 0);
    HasDotsShift(c, tail);
    HasDotsShift(b, c + tail);
    LoopMove(a, b + (c + tail), []);
    LoopMove(b, c + tail, [] + a);
    MoveThenDots([] + a, b, c, g);
    assert [] + a == a;
  }

  /** "/a/b/c/./../../g" becomes "/a/g". */
  lemma FirstExample(path: Bytes)
    requires path == "/a/b/c/./../../g"
    ensures RemoveDotSegments(path) == "/a/g"
  {
    var a, b, c, g: Bytes := "/a", "/b", "/c", "/g";
    assert path == a + (b + (c + (SlashDot + (SlashDotDot + (SlashDotDot + g)))));
    FirstShape(a, b, c, g);
  }

  /** The shape of the second example: a relative segment, a segment,
      "/..", then a last segment. */
  lemma SecondShape(mid: Bytes, content: Bytes, six: Bytes)
    requires PlainSegment(mid) && PlainSegment(content) && PlainSegment(six)
    requires mid[0] != '/' && content[0] == '/' && six[0] == '/'
    ensures RemoveDotSegments(mid + (content + (SlashDotDot + six))) == mid + six
  {
    var up := SlashDotDot + six;
    ContainsAt(up, SlashDot, 0);
    HasDotsShift(content, up);
    LoopMove(mid, content + up, []);
    LoopMove(content, up, [] + mid);
    UpThenEnd([] + mid, content, six);
    assert [] + mid == mid;
  }

  /** "mid/content=5/../6" becomes "mid/6". */
  lemma SecondExample(path: Bytes)
    requires path == "mid/content=5/../6"
    ensures RemoveDotSegments(path) == "mid/6"
  {
    var mid, content, six: Bytes := "mid", "/content=5", "/6";
    assert path == mid + (content + (SlashDotDot + six));
    SecondShape(mid, content, six);
  }
}
