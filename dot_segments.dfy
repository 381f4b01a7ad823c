/** remove_dot_segments: steps A to E of section 5.2.4 of RFC 3986, run
    on an input buffer and an output buffer until the input holds no
    "./", no "/." and is neither "." nor "..". */
module DotSegments {
  import opened Text

  const Slash: Bytes := "/"
  const Dot: Bytes := "."
  const DotDot: Bytes := ".."
  const DotSlash: Bytes := "./"
  const DotDotSlash: Bytes := "../"
  const SlashDot: Bytes := "/."
  const SlashDotDot: Bytes := "/.."
  const SlashDotSlash: Bytes := "/./"
  const SlashDotDotSlash: Bytes := "/../"

  /** The loop condition. */
  predicate HasDots(input: Bytes)
  {
    Contains(input, DotSlash) || Contains(input, SlashDot) || input == Dot || input == DotDot
  }

  /** The loop's two buffers. */
  datatype Buffers = Buffers(input: Bytes, output: Bytes)

  /** substr_replace($output, '', strrpos($output, '/')): the output
      without its last segment and the '/' before it. When there is no '/',
      strrpos gives false, which substr_replace reads as 0. */
  function DropLastSegment(output: Bytes): (r: Bytes)
    ensures |r| <= |output| && r == output[..|r|]
    ensures '/' in output ==> |r| < |output| && output[|r|] == '/' && '/' !in output[|r| + 1..]
    ensures '/' !in output ==> r == []
  {
    match LastIndexOfChar(output, '/')
    case None => []
    case Some(k) => output[..k]
  }

  /** One pass of the loop body, steps A to E in order. */
  function Step(b: Buffers): (r: Buffers)
    requires b.input != []
    ensures |r.input| < |b.input|
    ensures |r.input| + |r.output| <= |b.input| + |b.output|
  {
    var input := b.input;
    if StartsWith(input, DotDotSlash) then Buffers(input[3..], b.output)
    else if StartsWith(input, DotSlash) then Buffers(input[2..], b.output)
    else if StartsWith(input, SlashDotSlash) then Buffers(Slash + input[3..], b.output)
    else if input == SlashDot then Buffers(Slash, b.output)
    else if StartsWith(input, SlashDotDotSlash) then Buffers(Slash + input[4..], DropLastSegment(b.output))
    else if input == SlashDotDot then Buffers(Slash, DropLastSegment(b.output))
    else if input == Dot || input == DotDot then Buffers([], b.output)
    else MoveSegment(b)
  }

  /** Step E: the first segment, with its leading '/', moves to the output. */
  function MoveSegment(b: Buffers): (r: Buffers)
    requires b.input != []
    ensures |r.input| < |b.input| && r.output + r.input == b.output + b.input
    ensures r.input == [] || r.input[0] == '/'
  {
    match IndexOfChar(b.input, '/', 1)
    case Some(pos) =>
      assert b.input[..pos] + b.input[pos..] == b.input;
      Buffers(b.input[pos..], b.output + b.input[..pos])
    case None => Buffers([], b.output + b.input)
  }

  /** The loop from the given buffers to its result, output . input. */
  function Loop(b: Buffers): Bytes
    decreases |b.input|
  {
    if HasDots(b.input) then Loop(Step(b))
    else b.output + b.input
  }

  /** remove_dot_segments($input), as a function of the path. */
  function RemoveDotSegments(path: Bytes): (r: Bytes)
    ensures !HasDots(path) ==> r == path
  {
    Loop(Buffers(path, []))
  }

  /** remove_dot_segments as the loop the source runs. */
  method RemoveDots(path: Bytes) returns (r: Bytes)
    ensures r == RemoveDotSegments(path)
  {
    var input := path;
    var output: Bytes := [];
    while HasDots(input)
      invariant Loop(Buffers(input, output)) == RemoveDotSegments(path)
      decreases |input|
    {
      ghost var next := Step(Buffers(input, output));
      if StartsWith(input, DotDotSlash) {
        input := input[3..];
      } else if StartsWith(input, DotSlash) {
        input := input[2..];
      } else if StartsWith(input, SlashDotSlash) {
        input := Slash + input[3..];
      } else if input == SlashDot {
        input := Slash;
      } else if StartsWith(input, SlashDotDotSlash) {
        input := Slash + input[4..];
        output := DropLastSegment(output);
      } else if input == SlashDotDot {
        input := Slash;
        output := DropLastSegment(output);
      } else if input == Dot || input == DotDot {
        input := [];
      } else {
        var pos := IndexOfChar(input, '/', 1);
        if pos.Some? {
          output := output + input[..pos.value];
          input := input[pos.value..];
        } else {
          output := output + input;
          input := [];
        }
      }
      assert Buffers(input, output) == next;
    }
    r := output + input;
  }

  // ---------------------------------------------------------------------
  // No "." or ".." segment survives

  /** A "." or ".." segment begins at i: one or two dots running to the
      end or to a '/'. */
  predicate DotSegmentAt(s: Bytes, i: nat)
  {
    i < |s| && s[i] == '.' &&
    (i + 1 == |s| || s[i + 1] == '/' ||
     (s[i + 1] == '.' && (i + 2 == |s| || s[i + 2] == '/')))
  }

  /** No segment of s is "." or "..". */
  predicate DotFree(s: Bytes)
  {
    forall i :: 0 <= i < |s| && (i == 0 || s[i - 1] == '/') ==> !DotSegmentAt(s, i)
  }

  lemma DotFreeConcat(a: Bytes, b: Bytes)
    requires DotFree(a) && DotFree(b) && (b == [] || b[0] == '/')
    ensures DotFree(a + b)
  {
    var s := a + b;
    forall i | 0 <= i < |s| && (i == 0 || s[i - 1] == '/')
      ensures !DotSegmentAt(s, i)
    {
      if i < |a| {
        assert !DotSegmentAt(a, i);
      } else if i > |a| {
        assert !DotSegmentAt(b, i - |a|);
      }
    }
  }

  /** Cutting before a '/' keeps a string free of dot segments. */
  lemma DotFreePrefix(a: Bytes, k: nat)
    requires DotFree(a) && k < |a| && a[k] == '/'
    ensures DotFree(a[..k])
  {
    var s := a[..k];
    forall i | 0 <= i < |s| && (i == 0 || s[i - 1] == '/')
      ensures !DotSegmentAt(s, i)
    {
      assert !DotSegmentAt(a, i);
    }
  }

  /** So does cutting at a '/'. */
  lemma DotFreeSuffix(a: Bytes, k: nat)
    requires DotFree(a) && k < |a| && a[k] == '/'
    ensures DotFree(a[k..])
  {
    var s := a[k..];
    forall i | 0 <= i < |s| && (i == 0 || s[i - 1] == '/')
      ensures !DotSegmentAt(s, i)
    {
      if i > 0 {
        assert !DotSegmentAt(a, k + i);
      }
    }
  }

  /** Where the loop stops, the input has no dot segment. */
  lemma NoDotsDotFree(s: Bytes)
    requires !HasDots(s)
    ensures DotFree(s)
  {
    forall i | 0 <= i < |s| && (i == 0 || s[i - 1] == '/')
      ensures !DotSegmentAt(s, i)
    {
      if DotSegmentAt(s, i) {
        if i == 0 {
          if |s| > 2 && s[2] == '/' {
            assert OccursAt(s, DotSlash, 1);
          }
        } else {
          assert OccursAt(s, SlashDot, i - 1);
        }
      }
    }
  }

  /** A segment that step E moves: no '/' after its first byte, and not
      ".", "..", "/." or "/..". */
  lemma PieceDotFree(p: Bytes)
    requires forall j :: 1 <= j < |p| ==> p[j] != '/'
    requires p != Dot && p != DotDot && p != SlashDot && p != SlashDotDot
    ensures DotFree(p)
  {
  }

  /** The loop invariant behind the guarantee: the output is free of dot
      segments and the input continues it at a segment boundary. */
  predicate Clean(b: Buffers)
  {
    DotFree(b.output) && (b.output == [] || b.input == [] || b.input[0] == '/')
  }

  lemma StepKeepsClean(b: Buffers)
    requires b.input != [] && Clean(b)
    ensures Clean(Step(b))
  {
    var input := b.input;
    if StartsWith(input, DotDotSlash) || StartsWith(input, DotSlash) || input == Dot || input == DotDot {
      assert input[0] == '.';
    } else if StartsWith(input, SlashDotSlash) || input == SlashDot {
    } else if StartsWith(input, SlashDotDotSlash) || input == SlashDotDot {
      var out := DropLastSegment(b.output);
      if '/' in b.output {
        DotFreePrefix(b.output, |out|);
      }
    } else {
      match IndexOfChar(input, '/', 1)
      case Some(pos) =>
        MovedPiece(b, input[..pos]);
      case None =>
        MovedPiece(b, input);
    }
  }

  /** Step E: the moved segment joins the output cleanly. */
  lemma MovedPiece(b: Buffers, p: Bytes)
    requires Clean(b) && b.input != [] && p != [] && StartsWith(b.input, p)
    requires forall j :: 1 <= j < |p| ==> p[j] != '/'
    requires p != Dot && p != DotDot && p != SlashDot && p != SlashDotDot
    ensures DotFree(b.output + p)
  {
    PieceDotFree(p);
    if b.output == [] {
      assert b.output + p == p;
    } else {
      DotFreeConcat(b.output, p);
    }
  }

  lemma {:induction false} LoopDotFree(b: Buffers)
    requires Clean(b)
    ensures DotFree(Loop(b))
    decreases |b.input|
  {
    if HasDots(b.input) {
      StepKeepsClean(b);
      LoopDotFree(Step(b));
    } else {
      NoDotsDotFree(b.input);
      if b.output == [] {
        assert b.output + b.input == b.input;
      } else {
        DotFreeConcat(b.output, b.input);
      }
    }
  }

  /** remove_dot_segments leaves no "." or ".." segment. */
  lemma ResultDotFree(path: Bytes)
    ensures DotFree(RemoveDotSegments(path))
  {
    LoopDotFree(Buffers(path, []));
  }

  // ---------------------------------------------------------------------
  // Paths without dot segments are left alone

  /** On input free of dot segments only step E applies, and it moves
      bytes from the input to the output unchanged. */
  lemma StepOnDotFree(b: Buffers)
    requires b.input != [] && DotFree(b.input)
    ensures Step(b) == MoveSegment(b)
  {
    NoDotPrefix(b.input);
  }

  /** Steps A to D all need a dot segment at the front of the input. */
  lemma NoDotPrefix(input: Bytes)
    requires input != [] && DotFree(input)
    ensures !StartsWith(input, DotDotSlash) && !StartsWith(input, DotSlash)
    ensures !StartsWith(input, SlashDotSlash) && input != SlashDot
    ensures !StartsWith(input, SlashDotDotSlash) && input != SlashDotDot
    ensures input != Dot && input != DotDot
  {
    assert !DotSegmentAt(input, 0);
    if input[0] == '/' && |input| > 1 {
      assert !DotSegmentAt(input, 1);
    }
  }

  lemma MoveKeepsDotFree(b: Buffers)
    requires b.input != [] && DotFree(b.input)
    ensures DotFree(MoveSegment(b).input)
  {
    match IndexOfChar(b.input, '/', 1)
    case Some(pos) =>
      DotFreeSuffix(b.input, pos);
    case None =>
  }

  lemma {:induction false} LoopFixed(b: Buffers)
    requires DotFree(b.input) && (b.output == [] || b.input == [] || b.input[0] == '/')
    ensures Loop(b) == b.output + b.input
    decreases |b.input|
  {
    if HasDots(b.input) {
      StepOnDotFree(b);
      MoveKeepsDotFree(b);
      LoopFixed(Step(b));
    }
  }

  /** A path without "." or ".." segments comes back unchanged. */
  lemma DotFreeFixed(path: Bytes)
    requires DotFree(path)
    ensures RemoveDotSegments(path) == path
  {
    LoopFixed(Buffers(path, []));
  }

  /** remove_dot_segments returns its argument exactly when the argument
      has no "." or ".." segment. */
  lemma FixedIffDotFree(path: Bytes)
    ensures RemoveDotSegments(path) == path <==> DotFree(path)
  {
    ResultDotFree(path);
    if DotFree(path) {
      DotFreeFixed(path);
    }
  }

  /** Removing dot segments twice is removing them once. */
  lemma Idempotent(path: Bytes)
    ensures RemoveDotSegments(RemoveDotSegments(path)) == RemoveDotSegments(path)
  {
    ResultDotFree(path);
    DotFreeFixed(RemoveDotSegments(path));
  }

  // ---------------------------------------------------------------------
  // Length and absoluteness

  lemma {:induction false} LoopLength(b: Buffers)
    ensures |Loop(b)| <= |b.input| + |b.output|
    decreases |b.input|
  {
    if HasDots(b.input) {
      LoopLength(Step(b));
    }
  }

  /** The result is never longer than the path. */
  lemma ResultLength(path: Bytes)
    ensures |RemoveDotSegments(path)| <= |path|
  {
    LoopLength(Buffers(path, []));
  }

  /** Buffers of an absolute path: both start with '/' where non-empty,
      and they are never both empty. */
  predicate Rooted(b: Buffers)
  {
    (b.input != [] ==> b.input[0] == '/') &&
    (b.output != [] ==> b.output[0] == '/') &&
    (b.input != [] || b.output != [])
  }

  lemma StepKeepsRooted(b: Buffers)
    requires b.input != [] && Rooted(b)
    ensures Rooted(Step(b))
  {
    var input := b.input;
    if StartsWith(input, DotDotSlash) || StartsWith(input, DotSlash) || input == Dot || input == DotDot {
    } else if StartsWith(input, SlashDotSlash) || input == SlashDot {
    } else if StartsWith(input, SlashDotDotSlash) || input == SlashDotDot {
    } else {
      match IndexOfChar(input, '/', 1)
      case Some(pos) =>
        assert (b.output + input[..pos])[0] == '/';
      case None =>
        assert (b.output + input)[0] == '/';
    }
  }

  lemma {:induction false} LoopRooted(b: Buffers)
    requires Rooted(b)
    ensures Loop(b) != [] && Loop(b)[0] == '/'
    decreases |b.input|
  {
    if HasDots(b.input) {
      StepKeepsRooted(b);
      LoopRooted(Step(b));
    } else if b.output == [] {
      assert b.output + b.input == b.input;
    } else {
      assert (b.output + b.input)[0] == b.output[0];
    }
  }

  /** An absolute path stays absolute. */
  lemma AbsoluteStaysAbsolute(path: Bytes)
    requires path != [] && path[0] == '/'
    ensures RemoveDotSegments(path) != [] && RemoveDotSegments(path)[0] == '/'
  {
    LoopRooted(Buffers(path, []));
  }
}
