/** Reference resolution examples of section 5.4.1 of RFC 3986, which the
    repository's tests (IRITest.php:49-104) run through absolutize against
    the base "http://a/b/c/d;p?q": the object the constructor builds for
    the base, the object it builds for a reference made of path bytes
    only, and what absolutize and get_iri make of a few references. */
module ResolveVectors {
  import opened Text
  import opened PctEncoding
  import opened DotSegments
  import DotExamples
  import IriParse
  import opened IriComponents
  import IriProperties
  import IriAsWritten

  const BasePath: Bytes := "/b/c/d;p"
  const BaseDirectory: Bytes := "/b/c/"

  /** The base, as the groups it is made of; BaseSpelled spells it out. */
  const BaseGroups := IriParse.Groups(Some("http"), Some("a"), BasePath, Some("q"), None)
  const BaseIri: Bytes := IriParse.Compose(BaseGroups)

  // ---------------------------------------------------------------------
  // Text the setters store unchanged

  lemma {:induction false} AllowedFrom(s: Bytes, cs: CharSet, mode: CaseMode, p: nat)
    requires p <= |s| && forall i :: 0 <= i < |s| ==> Allowed(cs, s[i])
    ensures NormalizeFrom(s, cs, mode, p) == s
    decreases |s| - p
  {
    if p < |s| {
      NormalizeSkip(s, cs, mode, p);
      AllowedFrom(s, cs, mode, p + 1);
    }
  }

  /** Bytes that are all valid, and that the case mapping leaves alone,
      are normalised to themselves. */
  lemma AllowedKept(s: Bytes, cs: CharSet, mode: CaseMode)
    requires forall i :: 0 <= i < |s| ==> Allowed(cs, s[i])
    requires Recase(mode, s) == s
    ensures Normalized(s, cs, mode) == s
  {
    AllowedFrom(s, cs, mode, 0);
  }

  /** Without a '.' there is no dot segment. */
  lemma NoDots(s: Bytes)
    requires forall i :: 0 <= i < |s| ==> s[i] != '.'
    ensures !HasDots(s)
  {
    forall k: nat | k + 2 <= |s|
      ensures !OccursAt(s, DotSlash, k) && !OccursAt(s, SlashDot, k)
    {
      assert s[k..k + 2][0] == s[k] && s[k..k + 2][1] == s[k + 1];
    }
    assert Dot[0] == '.' && DotDot[0] == '.';
  }

  // ---------------------------------------------------------------------
  // The base

  lemma BaseParsed()
    ensures IriParse.ParseIri(BaseIri) == IriParse.Parts("http", "a", BasePath, "q", [])
  {
    BaseShaped();
    ParseOfGroups(BaseGroups);
  }

  /** ParseIri gives back the groups a well-shaped reference is made of. */
  lemma ParseOfGroups(g: IriParse.Groups)
    requires IriParse.WellShaped(g)
    ensures IriParse.ParseIri(IriParse.Compose(g)) ==
            IriParse.Parts(IriParse.OrEmpty(g.scheme), IriParse.OrEmpty(g.authority), g.path,
                           IriParse.OrEmpty(g.query), IriParse.OrEmpty(g.fragment))
  {
    IriParse.MatchCompose(g);
  }

  lemma BaseShaped()
    ensures IriParse.WellShaped(BaseGroups)
  {
    var path := BasePath;
    assert forall i :: 0 <= i < |path| ==> !IriParse.Stops(IriParse.PathClass, path[i]);
  }

  lemma BaseSpelled()
    ensures BaseIri == "http://a/b/c/d;p?q"
  {
    IriParse.ComposeLeft(BaseGroups);
  }

  /** Bytes every setter keeps as they are. */
  predicate AllAllowed(s: Bytes, cs: CharSet)
  {
    forall i :: 0 <= i < |s| ==> Allowed(cs, s[i])
  }

  /** set_authority with a host the setters keep, and nothing else. */
  lemma AuthorityPlain(c: Components, host: Bytes)
    requires host != [] && AllAllowed(host, HostChars) && Recase(Lowercase, host) == host
    ensures var d := WithAuthority(c, host).c;
            d.userinfo.None? && d.host == Some(host) && d.port.None? &&
            d.scheme == c.scheme && d.path == c.path && d.query == c.query && d.fragment == c.fragment
  {
    var p := AuthorityParts(None, host, None);
    assert '@' !in host && ':' !in host && host[0] != '[';
    IriProperties.SplitRoundTrip(p);
    assert Joined(p) == host;
    IriComponents.AuthorityFields(c, p);
    assert !Bracketed(host);
    AllowedKept(host, HostChars, Lowercase);
  }

  /** What the constructor builds from a scheme, a host, an absolute
      path and a query that the setters keep as they are. */
  lemma ConstructPlain(iri: Bytes, scheme: Bytes, host: Bytes, path: Bytes, query: Bytes)
    requires IriParse.ParseIri(iri) == IriParse.Parts(scheme, host, path, query, [])
    requires ValidScheme(scheme) && Lower(scheme) == scheme
    requires host != [] && AllAllowed(host, HostChars) && Recase(Lowercase, host) == host
    requires path != [] && path[0] == '/' && !HasDots(path) && AllAllowed(path, PathChars)
    requires query != [] && AllAllowed(query, QueryChars)
    ensures var c := Construct(iri);
            c.scheme == Some(scheme) && c.userinfo.None? && c.host == Some(host) && c.port.None? &&
            c.path == Some(path) && c.query == Some(query) && c.fragment.None?
  {
    var parts := IriParse.ParseIri(iri);
    var c1 := WithScheme(Blank, Some(scheme)).c;
    AuthorityPlain(c1, host);
    var c2 := WithAuthority(c1, host).c;
    PathPlain(c2, path);
    var c3 := WithPath(c2, Some(path)).c;
    AllowedKept(query, QueryChars, SameCase);
    var c4 := WithQuery(c3, Some(query)).c;
    var c5 := WithFragment(c4, Some([])).c;
    assert Construct(iri) == c5;
  }

  /** set_path with an absolute path the setters keep, once an authority
      and a scheme are set. */
  lemma PathPlain(c: Components, path: Bytes)
    requires c.scheme.Some? && c.host.Some?
    requires path != [] && !HasDots(path) && AllAllowed(path, PathChars)
    ensures WithPath(c, Some(path)).c.path == Some(path)
  {
    AllowedKept(path, PathChars, SameCase);
    assert StoredPath(c, path) == path;
  }

  lemma SchemeHttp()
    ensures ValidScheme("http") && Lower("http") == "http"
  {
  }

  lemma HostA()
    ensures AllAllowed("a", HostChars) && Recase(Lowercase, "a") == "a"
  {
  }

  lemma BasePathPlain()
    ensures BasePath[0] == '/' && !HasDots(BasePath) && AllAllowed(BasePath, PathChars)
  {
    var path := BasePath;
    assert forall i :: 0 <= i < |path| ==> path[i] != '.' && Allowed(PathChars, path[i]);
    NoDots(path);
  }

  lemma QueryQ()
    ensures AllAllowed("q", QueryChars)
  {
  }

  /** new IRI('http://a/b/c/d;p?q'): scheme "http", host "a", path
      "/b/c/d;p", query "q", and nothing else. */
  lemma BaseFields()
    ensures var b := Construct(BaseIri);
            b.scheme == Some("http") && b.userinfo.None? && b.host == Some("a") && b.port.None? &&
            b.path == Some(BasePath) && b.query == Some("q") && b.fragment.None?
  {
    BaseParsed();
    SchemeHttp();
    HostA();
    BasePathPlain();
    QueryQ();
    ConstructPlain(BaseIri, "http", "a", BasePath, "q");
  }

  /** Where "/b/c/d;p" has its last '/'. */
  lemma BaseSplit()
    ensures BasePath == BaseDirectory + "d;p" && '/' !in "d;p" && AllAllowed(BaseDirectory, PathChars)
    ensures BaseDirectory != [] && BaseDirectory[|BaseDirectory| - 1] == '/'
  {
    var dir := BaseDirectory;
    assert forall i :: 0 <= i < |dir| ==> Allowed(PathChars, dir[i]);
  }

  /** get_iri of an object with a scheme and a host. */
  lemma HostIri(c: Components, scheme: Bytes, host: Bytes, path: Bytes)
    requires c.scheme == Some(scheme) && c.userinfo.None? && c.host == Some(host) && host != [] && c.port.None?
    requires c.path == Some(path)
    requires c.query.None? && c.fragment.None?
    ensures GetIri(c) == Some(scheme + ":" + "//" + host + path)
  {
    assert AuthorityText(c) == host by {
      assert PortText(c.port).None?;
    }
    var g := IriParse.Groups(Some(scheme), Some(host), path, c.query, c.fragment);
    assert Groups(c) == g;
    IriParse.ComposeLeft(g);
    var head := IriParse.SchemePart(g.scheme) + IriParse.AuthorityPart(g.authority);
    assert head == scheme + ":" + "//" + host;
    assert IriParse.QueryPart(g.query) == [] && IriParse.FragmentPart(g.fragment) == [];
    assert IriParse.Compose(g) == head + path + [] + [];
    assert head + path + [] + [] == head + path;
  }

  /** get_iri of an object with a scheme gives something. */
  lemma SchemeIri(c: Components)
    requires c.scheme.Some?
    ensures GetIri(c).Some?
  {
    var g := Groups(c);
    IriParse.ComposeLeft(g);
    assert |IriParse.SchemePart(g.scheme)| > 0;
  }

  // ---------------------------------------------------------------------
  // A reference made of path bytes

  /** A reference that is a relative path: valid path bytes, no ':', and
      not starting with '/'. */
  predicate PlainReference(s: Bytes)
  {
    s != [] && s[0] != '/' && forall i :: 0 <= i < |s| ==> Allowed(PathChars, s[i]) && s[i] != ':'
  }

  lemma ReferenceParsed(s: Bytes)
    requires PlainReference(s)
    ensures IriParse.ParseIri(s) == IriParse.Parts([], [], s, [], [])
  {
    var g := IriParse.Groups(None, None, s, None, None);
    assert IriParse.WellShaped(g);
    IriParse.MatchCompose(g);
    IriParse.ComposeLeft(g);
    assert IriParse.Compose(g) == s;
  }

  /** The constructor gives it a path and nothing else. */
  lemma ReferenceFields(s: Bytes)
    requires PlainReference(s)
    ensures var r := Construct(s);
            r.scheme.None? && !HasAuthority(r) && r.path == Some(s) && r.query.None? && r.fragment.None?
  {
    ReferenceParsed(s);
    var c1 := WithScheme(Blank, Some([])).c;
    EmptyAuthority(c1);
    var c2 := WithAuthority(c1, []).c;
    ReferencePath(c2, s);
  }

  /** set_path with a plain reference, on an object with no scheme and no
      authority, keeps it as it is. */
  lemma ReferencePath(c: Components, s: Bytes)
    requires c.scheme.None? && !HasAuthority(c) && PlainReference(s)
    ensures WithPath(c, Some(s)).c.path == Some(s)
  {
    AllowedKept(s, PathChars, SameCase);
    assert StoredPath(c, s) == s;
    assert !StartsWith(s, TwoSlashes) by {
      assert s[0] != '/';
    }
  }

  /** The same holds for the constructor as written. */
  lemma ReferenceFaithful(s: Bytes)
    requires PlainReference(s)
    ensures IriAsWritten.Faithful(s)
  {
    ReferenceParsed(s);
    AllowedKept(s, PathChars, SameCase);
    NormalAllowed(s, PathChars);
    NormalTame(s, PathChars);
    assert IriAsWritten.NoLiteral([]);
    IriAsWritten.SplitsAgree([]);
    var c1 := WithScheme(Blank, Some([])).c;
    var p := AuthorityParts(None, [], None);
    IriProperties.SplitRoundTrip(p);
    IriComponents.AuthorityFields(c1, p);
  }

  // ---------------------------------------------------------------------
  // Resolving such a reference against the base

  /** An object with a scheme and a host, no userinfo or port, and a
      path dir + last whose last segment is last. */
  predicate HostedAt(b: Components, scheme: Bytes, host: Bytes, dir: Bytes, last: Bytes)
  {
    b.scheme == Some(scheme) && b.userinfo.None? && b.host == Some(host) && host != [] && b.port.None? &&
    b.path == Some(dir + last) && dir != [] && dir[|dir| - 1] == '/' && '/' !in last &&
    AllAllowed(dir, PathChars)
  }

  /** The base's path up to its last '/', then the reference. */
  lemma MergedOnto(b: Components, dir: Bytes, last: Bytes, s: Bytes)
    requires b.path == Some(dir + last) && dir != [] && dir[|dir| - 1] == '/' && '/' !in last
    requires s != [] && s[0] != '/'
    ensures MergedPath(b, s) == dir + s
  {
    var bp := dir + last;
    assert bp[|dir| - 1] == '/';
    assert forall j :: |dir| - 1 < j < |bp| ==> bp[j] == last[j - |dir|] && bp[j] != '/';
    assert LastIndexOfChar(bp, '/') == Some(|dir| - 1);
    assert bp[..|dir|] == dir;
  }

  /** absolutize(new IRI(iri), s) for a plain reference s: the base's
      scheme and authority, then the merged path with dot segments
      removed. */
  lemma MergedVector(b: Components, scheme: Bytes, host: Bytes, dir: Bytes, last: Bytes, s: Bytes)
    requires IriProperties.Settled(b) && HostedAt(b, scheme, host, dir, last) && PlainReference(s)
    ensures GetIri(Resolve(b, s)) == Some(scheme + ":" + "//" + host + RemoveDotSegments(dir + s))
  {
    var r := Resolve(b, s);
    MergedFields(b, scheme, host, dir, last, s);
    HostIri(r, scheme, host, RemoveDotSegments(dir + s));
  }

  /** The fields of that object. */
  lemma MergedFields(b: Components, scheme: Bytes, host: Bytes, dir: Bytes, last: Bytes, s: Bytes)
    requires IriProperties.Settled(b) && HostedAt(b, scheme, host, dir, last) && PlainReference(s)
    ensures var r := Resolve(b, s);
            r.scheme == Some(scheme) && r.userinfo.None? && r.host == Some(host) && r.port.None? &&
            r.path == Some(RemoveDotSegments(dir + s)) && r.query.None? && r.fragment.None?
  {
    SchemeIri(b);
    ReferenceFields(s);
    ReferenceNoAuthority(s);
    MergedAuthority(b, s);
    MergedPathField(b, dir, last, s);
  }

  /** The scheme and authority come from the base, the fragment from the
      reference. */
  lemma MergedAuthority(b: Components, s: Bytes)
    requires IriProperties.Settled(b) && GetIri(b).Some? && PlainReference(s)
    requires GetAuthority(Construct(s)).None? && Construct(s).scheme.None? && Construct(s).fragment.None?
    ensures var r := Resolve(b, s);
            r.scheme == b.scheme && r.userinfo == b.userinfo && r.host == b.host && r.port == b.port &&
            r.fragment.None?
  {
    IriProperties.ResolveTakesBase(b, s);
  }

  /** The path is the merged one with dot segments removed; the query is
      the reference's. */
  lemma MergedPathField(b: Components, dir: Bytes, last: Bytes, s: Bytes)
    requires IriProperties.Settled(b) && GetIri(b).Some? && b.scheme.Some? && b.host.Some? && PlainReference(s)
    requires b.path == Some(dir + last) && dir != [] && dir[|dir| - 1] == '/' && '/' !in last
    requires AllAllowed(dir, PathChars)
    requires GetAuthority(Construct(s)).None? && Construct(s).scheme.None?
    requires Construct(s).path == Some(s) && Construct(s).query.None?
    ensures var r := Resolve(b, s);
            r.path == Some(RemoveDotSegments(dir + s)) && r.query.None?
  {
    IriProperties.ResolveMergedPath(b, s);
    MergedOnto(b, dir, last, s);
    var m := dir + s;
    assert AllAllowed(m, PathChars) by {
      forall i | 0 <= i < |m| ensures Allowed(PathChars, m[i]) {
        if i >= |dir| {
          assert m[i] == s[i - |dir|];
        }
      }
    }
    PathUnderAuthority(b, m);
  }

  lemma ReferenceNoAuthority(s: Bytes)
    requires PlainReference(s)
    ensures GetAuthority(Construct(s)).None?
  {
    ReferenceFields(s);
    var rel := Construct(s);
    assert AuthorityText(rel) == [] by {
      assert PortText(rel.port).None?;
    }
  }

  /** set_path on an object with a scheme and a host: the path with dot
      segments removed. */
  lemma PathUnderAuthority(c: Components, path: Bytes)
    requires c.scheme.Some? && c.host.Some? && path != [] && AllAllowed(path, PathChars)
    ensures WithPath(c, Some(path)).c.path == Some(RemoveDotSegments(path))
  {
    AllowedKept(path, PathChars, SameCase);
    assert StoredPath(c, path) == RemoveDotSegments(path);
  }

  /** absolutize as written gives the same object. */
  lemma MergedVectorAsWritten(iri: Bytes, s: Bytes)
    requires Construct(iri).host.Some? && PlainReference(s)
    ensures IriAsWritten.ResolveAsWritten(Construct(iri), s) == Some(Resolve(Construct(iri), s))
  {
    var b := Construct(iri);
    IriProperties.ConstructSettled(iri);
    ReferenceFaithful(s);
    IriAsWritten.MergeFaithfulWithAuthority(b, Construct(s));
    IriAsWritten.ResolveAgrees(b, s);
  }

  // ---------------------------------------------------------------------
  // The paths

  /** "/b/c/g" has no dot segment. */
  lemma SiblingPath(s: Bytes)
    requires s == "g"
    ensures PlainReference(s) && RemoveDotSegments(BaseDirectory + s) == "/b/c/g"
  {
    assert PlainReference(s) by {
      assert forall i :: 0 <= i < |s| ==> Allowed(PathChars, s[i]) && s[i] != ':';
    }
    var m: Bytes := BaseDirectory + s;
    assert m == "/b/c/g";
    assert forall i :: 0 <= i < |m| ==> m[i] != '.';
    NoDots(m);
  }

  /** Three segments, "/..", then a last segment. */
  lemma UpShape(b: Bytes, c: Bytes, g: Bytes, y: Bytes)
    requires DotExamples.PlainSegment(b) && DotExamples.PlainSegment(c) && DotExamples.PlainSegment(g)
    requires DotExamples.PlainSegment(y)
    requires b[0] == '/' && c[0] == '/' && g[0] == '/' && y[0] == '/'
    ensures RemoveDotSegments(b + (c + (g + (SlashDotDot + y)))) == b + c + y
  {
    var tail := SlashDotDot + y;
    DotExamples.ContainsAt(tail, SlashDot, 0);
    DotExamples.HasDotsShift(g, tail);
    DotExamples.HasDotsShift(c, g + tail);
    DotExamples.LoopMove(b, c + (g + tail), []);
    DotExamples.LoopMove(c, g + tail, [] + b);
    DotExamples.LoopMove(g, tail, [] + b + c);
    DotExamples.UpThenEnd([] + b + c, g, y);
    assert [] + b == b;
  }

  /** "g;x=1/../y" merges to "/b/c/g;x=1/../y", which becomes "/b/c/y". */
  lemma ParameterUpPath(s: Bytes)
    requires s == "g;x=1/../y"
    ensures PlainReference(s) && RemoveDotSegments(BaseDirectory + s) == "/b/c/y"
  {
    assert PlainReference(s) by {
      assert forall i :: 0 <= i < |s| ==> Allowed(PathChars, s[i]) && s[i] != ':';
    }
    var b, c, g, y: Bytes := "/b", "/c", "/g;x=1", "/y";
    assert BaseDirectory + s == b + (c + (g + (SlashDotDot + y)));
    UpShape(b, c, g, y);
  }

  /** Two segments, then "/.." three times, then a last segment: the third
      "/.." finds nothing left to drop. */
  lemma ThriceUpShape(b: Bytes, c: Bytes, g: Bytes)
    requires DotExamples.PlainSegment(b) && DotExamples.PlainSegment(c) && DotExamples.PlainSegment(g)
    requires b[0] == '/' && c[0] == '/' && g[0] == '/'
    ensures RemoveDotSegments(b + (c + (SlashDotDot + (SlashDotDot + (SlashDotDot + g))))) == g
  {
    var tail := SlashDotDot + (SlashDotDot + (SlashDotDot + g));
    DotExamples.ContainsAt(tail, SlashDot, 0);
    DotExamples.HasDotsShift(c, tail);
    DotExamples.LoopMove(b, c + tail, []);
    DotExamples.LoopMove(c, tail, [] + b);
    DotExamples.LoopSlashDotDot(SlashDotDot + (SlashDotDot + g), [] + b + c);
    DotExamples.DropSegment([] + b, c);
    DotExamples.LoopSlashDotDot(SlashDotDot + g, [] + b);
    DotExamples.DropSegment([], b);
    DotExamples.LoopSlashDotDot(g, []);
    DotExamples.LoopEnd(g, []);
  }

  /** "../../../g" merges to "/b/c/../../../g", which becomes "/g". */
  lemma AboveRootPath(s: Bytes)
    requires s == "../../../g"
    ensures PlainReference(s) && RemoveDotSegments(BaseDirectory + s) == "/g"
  {
    assert PlainReference(s) by {
      assert forall i :: 0 <= i < |s| ==> Allowed(PathChars, s[i]) && s[i] != ':';
    }
    var b, c, g: Bytes := "/b", "/c", "/g";
    assert BaseDirectory + s == b + (c + (SlashDotDot + (SlashDotDot + (SlashDotDot + g))));
    ThriceUpShape(b, c, g);
  }

  /** A final "/.." drops a segment and leaves "/". */
  lemma LoopLastUp(out: Bytes)
    ensures Loop(Buffers(SlashDotDot, out)) == DropLastSegment(out) + Slash
  {
    DotExamples.ContainsAt(SlashDotDot, SlashDot, 0);
    var input := SlashDotDot;
    assert input[..3] == input && input[..2] == SlashDot;
    assert !StartsWith(input, DotDotSlash) && !StartsWith(input, DotSlash) && !StartsWith(input, SlashDotSlash);
    assert !StartsWith(input, SlashDotDotSlash);
    assert Step(Buffers(input, out)) == Buffers(Slash, DropLastSegment(out));
    assert !HasDots(Slash);
  }

  /** Two segments, then "/.." twice at the end. */
  lemma TwiceUpEndShape(b: Bytes, c: Bytes)
    requires DotExamples.PlainSegment(b) && DotExamples.PlainSegment(c) && b[0] == '/' && c[0] == '/'
    ensures RemoveDotSegments(b + (c + (SlashDotDot + SlashDotDot))) == Slash
  {
    var tail := SlashDotDot + SlashDotDot;
    DotExamples.ContainsAt(tail, SlashDot, 0);
    DotExamples.HasDotsShift(c, tail);
    DotExamples.LoopMove(b, c + tail, []);
    DotExamples.LoopMove(c, tail, [] + b);
    DotExamples.LoopSlashDotDot(SlashDotDot, [] + b + c);
    DotExamples.DropSegment([] + b, c);
    LoopLastUp([] + b);
    DotExamples.DropSegment([], b);
  }

  /** "../.." merges to "/b/c/../..", which becomes "/". */
  lemma TwiceUpPath(s: Bytes)
    requires s == "../.."
    ensures PlainReference(s) && RemoveDotSegments(BaseDirectory + s) == "/"
  {
    assert PlainReference(s) by {
      assert forall i :: 0 <= i < |s| ==> Allowed(PathChars, s[i]) && s[i] != ':';
    }
    var b, c: Bytes := "/b", "/c";
    assert BaseDirectory + s == b + (c + (SlashDotDot + SlashDotDot));
    TwiceUpEndShape(b, c);
  }

  // ---------------------------------------------------------------------
  // The examples

  /** A plain reference whose merged path comes to path gives
      iri == "http://a" + path, and absolutize as written gives the same. */
  lemma AgainstBase(reference: Bytes, path: Bytes, iri: Bytes)
    requires PlainReference(reference) && RemoveDotSegments(BaseDirectory + reference) == path
    requires iri == "http://a" + path
    ensures GetIri(Resolve(Construct(BaseIri), reference)) == Some(iri)
    ensures IriAsWritten.ResolveAsWritten(Construct(BaseIri), reference) == Some(Resolve(Construct(BaseIri), reference))
  {
    BaseResolves(reference, "http", "a", BaseDirectory, "d;p");
    BaseSpelledWith(path);
  }

  lemma BaseSpelledWith(path: Bytes)
    ensures "http" + ":" + "//" + "a" + path == "http://a" + path
  {
  }

  /** The same, with the base's scheme, host, directory and last segment
      as parameters. */
  lemma BaseResolves(reference: Bytes, scheme: Bytes, host: Bytes, dir: Bytes, last: Bytes)
    requires scheme == "http" && host == "a" && dir == BaseDirectory && last == "d;p"
    requires PlainReference(reference)
    ensures GetIri(Resolve(Construct(BaseIri), reference)) ==
            Some(scheme + ":" + "//" + host + RemoveDotSegments(dir + reference))
    ensures IriAsWritten.ResolveAsWritten(Construct(BaseIri), reference) == Some(Resolve(Construct(BaseIri), reference))
  {
    BaseFields();
    BaseSplit();
    AgainstHosted(BaseIri, scheme, host, dir, last, reference);
  }

  /** absolutize(new IRI(iri), s), for an iri the constructor gives a
      scheme and a host, and a plain reference s. */
  lemma AgainstHosted(iri: Bytes, scheme: Bytes, host: Bytes, dir: Bytes, last: Bytes, s: Bytes)
    requires var b := Construct(iri);
             b.scheme == Some(scheme) && b.userinfo.None? && b.host == Some(host) && host != [] && b.port.None? &&
             b.path == Some(dir + last) && dir != [] && dir[|dir| - 1] == '/' && '/' !in last &&
             AllAllowed(dir, PathChars)
    requires PlainReference(s)
    ensures GetIri(Resolve(Construct(iri), s)) == Some(scheme + ":" + "//" + host + RemoveDotSegments(dir + s))
    ensures IriAsWritten.ResolveAsWritten(Construct(iri), s) == Some(Resolve(Construct(iri), s))
  {
    assert HostedAt(Construct(iri), scheme, host, dir, last);
    IriProperties.ConstructSettled(iri);
    MergedVector(Construct(iri), scheme, host, dir, last, s);
    MergedVectorAsWritten(iri, s);
  }

  /** "g" gives "http://a/b/c/g". */
  lemma Sibling(reference: Bytes)
    requires reference == "g"
    ensures GetIri(Resolve(Construct(BaseIri), reference)) == Some("http://a/b/c/g")
    ensures IriAsWritten.ResolveAsWritten(Construct(BaseIri), reference) == Some(Resolve(Construct(BaseIri), reference))
  {
    SiblingPath(reference);
    AgainstBase(reference, "/b/c/g", "http://a/b/c/g");
  }

  /** "g;x=1/../y" gives "http://a/b/c/y". */
  lemma ParameterUp(reference: Bytes)
    requires reference == "g;x=1/../y"
    ensures GetIri(Resolve(Construct(BaseIri), reference)) == Some("http://a/b/c/y")
    ensures IriAsWritten.ResolveAsWritten(Construct(BaseIri), reference) == Some(Resolve(Construct(BaseIri), reference))
  {
    ParameterUpPath(reference);
    AgainstBase(reference, "/b/c/y", "http://a/b/c/y");
  }

  /** "../../../g" gives "http://a/g": a ".." above the root is dropped. */
  lemma AboveRoot(reference: Bytes)
    requires reference == "../../../g"
    ensures GetIri(Resolve(Construct(BaseIri), reference)) == Some("http://a/g")
    ensures IriAsWritten.ResolveAsWritten(Construct(BaseIri), reference) == Some(Resolve(Construct(BaseIri), reference))
  {
    AboveRootPath(reference);
    AgainstBase(reference, "/g", "http://a/g");
  }

  /** "../.." gives "http://a/", with the root's '/'; IRITest.php:72
      expects "http://a". */
  lemma TwiceUp(reference: Bytes)
    requires reference == "../.."
    ensures GetIri(Resolve(Construct(BaseIri), reference)) == Some("http://a/")
    ensures IriAsWritten.ResolveAsWritten(Construct(BaseIri), reference) == Some(Resolve(Construct(BaseIri), reference))
  {
    TwiceUpPath(reference);
    AgainstBase(reference, "/", "http://a/");
  }
}
