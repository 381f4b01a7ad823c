/** What the IRI operations promise: the two defects of the setters and
    their corrections, the inverse of set_authority's split, what
    absolutize takes from the base and from the relative reference, and
    that setting a component to what was stored changes nothing. */
module IriProperties {
  import opened Text
  import opened PctEncoding
  import DotSegments
  import IPv6
  import IPv6Check
  import IPv6Vectors
  import IriParse
  import opened IriComponents

  // ---------------------------------------------------------------------
  // set_scheme: the check as written and the grammar

  /** As written only the first two bytes are checked: whatever follows
      them does not change the answer. */
  lemma SchemeCheckStopsAtTwo(s: Bytes, tail: Bytes)
    requires |s| == 2
    ensures SchemeAccepted(s + tail) == SchemeAccepted(s)
  {
    assert (s + tail)[0] == s[0] && (s + tail)[1] == s[1];
  }

  /** So "ht~p" passes as written though '~' is not a scheme byte. */
  lemma SchemeCheckAsWritten()
    ensures SchemeAccepted("ht~p") && !ValidScheme("ht~p")
  {
    var s: Bytes := "ht~p";
    assert !SchemeChar(s[2]);
  }

  /** The corrected check is stricter and agrees with the one as written
      on every scheme the grammar allows. */
  lemma SchemeCheckCorrected(s: Bytes)
    requires s != []
    ensures ValidScheme(s) ==> SchemeAccepted(s)
    ensures |s| <= 2 ==> (ValidScheme(s) <==> SchemeAccepted(s))
  {
  }

  // ---------------------------------------------------------------------
  // set_authority: the port separator

  /** As written the first ':' ends the host even inside brackets:
      "[::1]" gives host "[" and port ":1]". */
  lemma AuthoritySplitAsWritten()
    ensures SplitAuthorityAsWritten("[::1]") == AuthorityParts(None, "[", Some(":1]"))
  {
    var a: Bytes := "[::1]";
    assert LastIndexOfChar(a, '@').None?;
    assert IndexOfChar(a, ':', 0) == Some(1);
    assert a[..1] == "[" && a[2..] == ":1]";
  }

  /** With the corrected split "[::1]" is a host with no port. */
  lemma AuthoritySplitCorrected()
    ensures SplitAuthority("[::1]") == AuthorityParts(None, "[::1]", None)
  {
    LiteralSplit(None, "::1", None);
    LoopbackSpelling();
  }

  lemma LoopbackSpelling()
    ensures Joined(AuthorityParts(None, "[" + "::1" + "]", None)) == "[::1]"
  {
  }

  /** set_authority keeps a bracketed address checkIPv6 accepts, once the
      split is corrected. */
  lemma LiteralHostKept(c: Components, host: Bytes)
    requires Bracketed(host) && ']' !in Literal(host) && '@' !in Literal(host)
    requires IPv6Check.IsIPv6Address(Literal(host))
    ensures WithAuthority(c, host).ok && WithAuthority(c, host).c.host == Some(host)
  {
    LiteralHostSplit(host);
    LiteralAccepted(c, host);
  }

  lemma LiteralHostSplit(host: Bytes)
    requires Bracketed(host) && ']' !in Literal(host) && '@' !in Literal(host)
    ensures SplitAuthority(host) == AuthorityParts(None, host, None)
  {
    var addr := Literal(host);
    assert host == "[" + addr + "]";
    LiteralSplit(None, addr, None);
    assert Joined(AuthorityParts(None, host, None)) == host;
  }

  lemma LiteralAccepted(c: Components, host: Bytes)
    requires Bracketed(host) && IPv6Check.IsIPv6Address(Literal(host))
    ensures ApplyAuthority(c, AuthorityParts(None, host, None)).ok &&
            ApplyAuthority(c, AuthorityParts(None, host, None)).c.host == Some(host)
  {
    var p := AuthorityParts(None, host, None);
    AuthorityOk(c, p);
    AuthorityFields(c, p);
  }

  /** So set_authority("[::1]") keeps the host. */
  lemma LoopbackHostKept(c: Components)
    ensures WithAuthority(c, "[::1]").ok && WithAuthority(c, "[::1]").c.host == Some("[::1]")
  {
    LoopbackBracketed();
    LoopbackIsIPv6();
    LiteralHostKept(c, "[::1]");
  }

  lemma LoopbackBracketed()
    ensures Bracketed("[::1]") && Literal("[::1]") == "::1"
    ensures ']' !in Literal("[::1]") && '@' !in Literal("[::1]")
  {
    var host: Bytes := "[::1]";
    assert host[1..|host| - 1] == "::1";
  }

  lemma LoopbackIsIPv6()
    ensures IPv6Check.IsIPv6Address("::1")
  {
    IPv6Vectors.ValidBefore("1", []);
    LoopbackLiteral();
  }

  lemma LoopbackLiteral()
    ensures IPv6.Gap + "1" + [] == "::1"
  {
  }

  /** A bracketed literal comes through the corrected split whole. */
  lemma LiteralSplit(userinfo: Option<Bytes>, addr: Bytes, port: Option<Bytes>)
    requires ']' !in addr && '@' !in addr
    requires port.Some? ==> '@' !in port.value
    ensures var host := "[" + addr + "]";
            SplitAuthority(Joined(AuthorityParts(userinfo, host, port))) == AuthorityParts(userinfo, host, port)
  {
    var host: Bytes := "[" + addr + "]";
    assert host[..|host| - 1] == "[" + addr;
    SplitRoundTrip(AuthorityParts(userinfo, host, port));
  }

  /** Host text that the corrected split reads back: no '@'; a ':' only
      inside a bracketed literal, which then has a single ']'. */
  predicate SplitSafeHost(h: Bytes)
  {
    '@' !in h &&
    (h != [] && h[0] == '[' ==> Bracketed(h) && ']' !in h[..|h| - 1]) &&
    (':' in h ==> h != [] && h[0] == '[')
  }

  /** The corrected split undoes Joined: userinfo up to the last '@',
      host up to the port's ':'. */
  lemma SplitRoundTrip(p: AuthorityParts)
    requires SplitSafeHost(p.host) || p.host == []
    requires p.port.Some? ==> '@' !in p.port.value
    ensures SplitAuthority(Joined(p)) == p
  {
    var tail := p.host + (if p.port.Some? then Colon + p.port.value else []);
    assert '@' !in tail;
    var a := Joined(p);
    assert a == (if p.userinfo.Some? then p.userinfo.value + At else []) + tail;
    UserinfoBack(p.userinfo, tail);
    PortBack(p.host, p.port);
  }

  lemma UserinfoBack(u: Option<Bytes>, tail: Bytes)
    requires '@' !in tail
    ensures SplitUserinfo((if u.Some? then u.value + At else []) + tail) == (u, tail)
  {
    var a := (if u.Some? then u.value + At else []) + tail;
    var r := SplitUserinfo(a);
    if u.Some? {
      var i := |u.value|;
      assert a[i] == '@';
      assert LastIndexOfChar(a, '@') == Some(i) by {
        LastAt(a, i);
      }
      assert a[..i] == u.value && a[i + 1..] == tail;
    } else {
      assert a == tail;
    }
  }

  lemma LastAt(a: Bytes, i: nat)
    requires i < |a| && a[i] == '@' && '@' !in a[i + 1..]
    ensures LastIndexOfChar(a, '@') == Some(i)
    decreases |a|
  {
    if i < |a| - 1 {
      assert a[|a| - 1] == a[i + 1..][|a| - 1 - (i + 1)];
      var b := a[..|a| - 1];
      assert b[i + 1..] == a[i + 1..|a| - 1];
      LastAt(b, i);
    }
  }

  lemma PortBack(host: Bytes, port: Option<Bytes>)
    requires SplitSafeHost(host) || host == []
    ensures var rest := host + (if port.Some? then Colon + port.value else []);
            SplitPort(rest, PortSearchStart(rest)) == (host, port)
  {
    var rest := host + (if port.Some? then Colon + port.value else []);
    var from := PortSearchStart(rest);
    if host != [] && host[0] == '[' {
      var k := |host| - 1;
      assert rest[k] == ']';
      assert forall j :: 0 <= j < k ==> rest[j] == host[j];
      assert IndexOfChar(rest, ']', 0) == Some(k) by {
        FirstAt(rest, ']', k);
      }
      assert from == |host|;
    } else {
      assert from == 0;
    }
    if port.Some? {
      assert rest[|host|] == ':';
      FirstFrom(rest, ':', from, |host|);
      assert rest[..|host|] == host && rest[|host| + 1..] == port.value;
    } else {
      assert rest == host;
      NoneFrom(rest, ':', from);
    }
  }

  lemma FirstAt(s: Bytes, c: Byte, k: nat)
    requires k < |s| && s[k] == c && forall j :: 0 <= j < k ==> s[j] != c
    ensures IndexOfChar(s, c, 0) == Some(k)
  {
    FirstFrom(s, c, 0, k);
  }

  lemma {:induction false} FirstFrom(s: Bytes, c: Byte, from: nat, k: nat)
    requires from <= k < |s| && s[k] == c && forall j :: from <= j < k ==> s[j] != c
    ensures IndexOfChar(s, c, from) == Some(k)
    decreases k - from
  {
    if from < k {
      FirstFrom(s, c, from + 1, k);
    }
  }

  lemma {:induction false} NoneFrom(s: Bytes, c: Byte, from: nat)
    requires forall j :: from <= j < |s| ==> s[j] != c
    ensures IndexOfChar(s, c, from) == None
    decreases |s| - from
  {
    if from < |s| {
      NoneFrom(s, c, from + 1);
    }
  }

  // ---------------------------------------------------------------------
  // is_valid

  /** Every setter records its outcome under its own key, so afterwards
      the object is valid exactly when that call succeeded and every other
      recorded call did: one failure makes it invalid until the same
      setter succeeds again. */
  lemma SetterValidity(c: Components, u: Update, k: Setter)
    requires u.c.valid == c.valid[k := u.ok]
    ensures IsValid(u.c) <==> u.ok && forall j :: j in c.valid && j != k ==> c.valid[j]
  {
    if IsValid(u.c) {
      assert k in u.c.valid;
      forall j | j in c.valid && j != k
        ensures c.valid[j]
      {
        assert j in u.c.valid && u.c.valid[j] == c.valid[j];
      }
    }
    if u.ok && forall j :: j in c.valid && j != k ==> c.valid[j] {
      forall j | j in u.c.valid
        ensures u.c.valid[j]
      {
        if j != k {
          assert j in c.valid && u.c.valid[j] == c.valid[j];
        }
      }
    }
  }

  /** A failed set_host, with whatever else was recorded before. */
  lemma FailedHostInvalid(c: Components, host: Option<Bytes>)
    requires !WithHost(c, host).ok
    ensures !IsValid(WithHost(c, host).c)
  {
    SetterValidity(c, WithHost(c, host), Host);
  }

  // ---------------------------------------------------------------------
  // Components that their own setters leave alone

  lemma {:induction false} LowerIdempotent(s: Bytes)
    ensures Lower(Lower(s)) == Lower(s)
  {
    var t := Lower(s);
    assert forall i :: 0 <= i < |t| ==> Lower(t)[i] == LowerChar(LowerChar(s[i]));
  }

  /** Each field is what its setter stores when handed the field itself.
      The one exception allowed is a path that dot-segment removal
      emptied: set_path('') clears it. (The port always is: see
      PortSettles.) */
  predicate Settled(c: Components)
  {
    WithScheme(c, c.scheme).c.scheme == c.scheme &&
    WithUserinfo(c, c.userinfo).c.userinfo == c.userinfo &&
    WithHost(c, c.host).c.host == c.host &&
    (c.path != Some([]) ==> WithPath(c, c.path).c.path == c.path) &&
    WithQuery(c, c.query).c.query == c.query &&
    WithFragment(c, c.fragment).c.fragment == c.fragment
  }

  /** The new object absolutize builds holds the base's scheme and
      authority ... */
  lemma BaseAuthorityKept(b: Components)
    requires Settled(b)
    ensures var t := BaseAuthority(b);
            t.scheme == b.scheme && t.userinfo == b.userinfo && t.host == b.host && t.port == b.port
  {
  }

  /** ... and nothing else. */
  lemma BaseAuthorityOnly(b: Components)
    ensures var t := BaseAuthority(b);
            t.path.None? && t.query.None? && t.fragment.None?
  {
  }

  // ---------------------------------------------------------------------
  // Setting a component to what its setter stored changes nothing

  /** set_scheme(get_scheme()) keeps the scheme: it is already lower-case. */
  lemma SchemeSettles(c: Components, scheme: Option<Bytes>)
    ensures var d := WithScheme(c, scheme).c;
            WithScheme(d, d.scheme).c.scheme == d.scheme
  {
    if WithScheme(c, scheme).c.scheme.Some? {
      LowerIdempotent(scheme.value);
    }
  }

  /** set_userinfo(get_userinfo()) keeps the userinfo. */
  lemma UserinfoSettles(c: Components, userinfo: Option<Bytes>)
    ensures var d := WithUserinfo(c, userinfo).c;
            WithUserinfo(d, d.userinfo).c.userinfo == d.userinfo
  {
    if Given(userinfo) {
      NormalizedIdempotent(userinfo.value, UserinfoChars, SameCase);
    }
  }

  /** set_query(get_query()) keeps the query. */
  lemma QuerySettles(c: Components, query: Option<Bytes>)
    ensures var d := WithQuery(c, query).c;
            WithQuery(d, d.query).c.query == d.query
  {
    if Given(query) {
      NormalizedIdempotent(query.value, QueryChars, SameCase);
    }
  }

  /** set_fragment(get_fragment()) keeps the fragment. */
  lemma FragmentSettles(c: Components, fragment: Option<Bytes>)
    ensures var d := WithFragment(c, fragment).c;
            WithFragment(d, d.fragment).c.fragment == d.fragment
  {
    if Given(fragment) {
      NormalizedIdempotent(fragment.value, QueryChars, SameCase);
    }
  }

  /** set_port(get_port()) keeps the port. */
  lemma PortSettles(c: Components, port: Option<Bytes>)
    ensures var d := WithPort(c, port).c;
            WithPort(d, PortText(d.port)).c.port == d.port
  {
  }

  /** set_path depends on the object only through its scheme and whether
      it has an authority. */
  lemma PathContext(c: Components, d: Components, path: Option<Bytes>)
    requires c.scheme == d.scheme && HasAuthority(c) == HasAuthority(d)
    ensures WithPath(c, path).ok == WithPath(d, path).ok
    ensures WithPath(c, path).c.path == WithPath(d, path).c.path
  {
    if Given(path) {
      assert StoredPath(c, path.value) == StoredPath(d, path.value);
    }
  }

  /** set_path(get_path()) keeps the path, unless dot-segment removal
      emptied it. */
  lemma PathSettles(c: Components, path: Option<Bytes>)
    ensures var d := WithPath(c, path).c;
            d.path != Some([]) ==> WithPath(d, d.path).c.path == d.path
  {
    var d := WithPath(c, path).c;
    if d.path.Some? && d.path.value != [] {
      var v := d.path.value;
      NormalFixpoint(v, PathChars);
      if c.scheme.Some? {
        DotSegments.DotFreeFixed(v);
      }
      assert StoredPath(d, v) == v;
    }
  }

  /** set_host(get_host()) keeps the host: a literal is checked again and
      kept, any other host is normal and lower-case already. */
  lemma HostSettles(c: Components, host: Option<Bytes>)
    ensures var d := WithHost(c, host).c;
            WithHost(d, d.host).c.host == d.host
  {
    var d := WithHost(c, host).c;
    if d.host.Some? && !Bracketed(host.value) {
      var v := d.host.value;
      NormalExcludes(v, HostChars, '[');
      assert !Bracketed(v);
      NormalForms.LowercaseIdempotent(host.value, HostChars);
    }
  }

  /** The authority set_authority stores is settled. */
  lemma AuthoritySettles(c: Components, a: Bytes)
    ensures var d := WithAuthority(c, a).c;
            WithUserinfo(d, d.userinfo).c.userinfo == d.userinfo &&
            WithHost(d, d.host).c.host == d.host
  {
    var p := SplitAuthority(a);
    AuthorityFields(c, p);
    UserinfoSettles(c, p.userinfo);
    HostSettles(c, Some(p.host));
  }

  /** Every object the constructor builds is settled: setting any of its
      components to what the getter returns changes nothing. */
  lemma ConstructSettled(iri: Bytes)
    ensures Settled(Construct(iri))
  {
    ConstructSettledAuthority(iri);
    ConstructSettledRest(iri);
  }

  lemma ConstructSettledAuthority(iri: Bytes)
    ensures var c := Construct(iri);
            WithScheme(c, c.scheme).c.scheme == c.scheme &&
            WithUserinfo(c, c.userinfo).c.userinfo == c.userinfo &&
            WithHost(c, c.host).c.host == c.host
  {
    var parts := IriParse.ParseIri(iri);
    var c1 := WithScheme(Blank, Some(parts.scheme)).c;
    AuthorityFields(c1, SplitAuthority(parts.authority));
    SchemeSettles(Blank, Some(parts.scheme));
    AuthoritySettles(c1, parts.authority);
  }

  lemma ConstructSettledRest(iri: Bytes)
    ensures var c := Construct(iri);
            (c.path != Some([]) ==> WithPath(c, c.path).c.path == c.path) &&
            WithQuery(c, c.query).c.query == c.query &&
            WithFragment(c, c.fragment).c.fragment == c.fragment
  {
    var parts := IriParse.ParseIri(iri);
    var c1 := WithScheme(Blank, Some(parts.scheme)).c;
    var c2 := WithAuthority(c1, parts.authority).c;
    var c3 := WithPath(c2, Some(parts.path)).c;
    var c4 := WithQuery(c3, Some(parts.query)).c;
    PathSettles(c2, Some(parts.path));
    PathContext(c3, Construct(iri), c3.path);
    QuerySettles(c3, Some(parts.query));
    FragmentSettles(c4, Some(parts.fragment));
  }

  // ---------------------------------------------------------------------
  // set_path: the "//" check

  lemma SlashTriplet()
    ensures Chr("2F") == '/'
  {
    var two: Bytes := "2F";
    assert two[..1] == "2";
    assert Hexdec(two[..1]) == 2 by {
      assert two[..1][..0] == [];
    }
  }

  /** "%2F/x" is normalised to "//x": the triplet stands for '/', which a
      path may hold. */
  lemma EncodedSlashes()
    ensures Normalized("%2F/x", PathChars, SameCase) == "//x"
  {
    var s: Bytes := "%2F/x";
    assert Recase(SameCase, s) == s;
    SlashTriplet();
    assert s[1..3] == "2F";
    var r := NormalizePass(s, PathChars, SameCase, 0);
    assert r == ("//x", 1) by {
      assert s[..0] + ['/'] + s[3..] == "//x";
    }
    NormalizeStep(s, PathChars, SameCase, 0, r);
    var t: Bytes := "//x";
    assert Normal(t[1..], PathChars) by {
      assert t[1..][1..][1..] == [];
    }
    NormalIsFixed(t, PathChars, 1);
  }

  /** ... and "//x" parses back as the authority "x" with an empty path. */
  lemma PathReadsAsAuthority()
    ensures IriParse.ParseIri("//x") == IriParse.Parts([], "x", [], [], [])
  {
    var g := IriParse.Groups(None, Some("x"), [], None, None);
    IriParse.MatchCompose(g);
    IriParse.ComposeLeft(g);
    assert IriParse.Compose(g) == "//x";
  }

  /** An object holding nothing but a path is written out as that path. */
  lemma OnlyPath(c: Components)
    requires c.scheme.None? && !HasAuthority(c) && c.query.None? && c.fragment.None?
    requires c.path.Some? && c.path.value != []
    ensures GetIri(c) == c.path
  {
    var path := c.path.value;
    assert AuthorityText(c) == [] by {
      assert PortText(c.port).None?;
    }
    var g := Groups(c);
    assert g == IriParse.Groups(None, None, path, None, None);
    IriParse.ComposeLeft(g);
    assert IriParse.Compose(g) == [] + [] + path + [] + [];
    assert IriParse.Compose(g) == path;
  }

  /** With the check applied to the stored path as well, the same call
      fails and stores nothing. */
  lemma PathCheckCorrected()
    ensures !WithPath(Blank, Some("%2F/x")).ok
    ensures WithPath(Blank, Some("%2F/x")).c.path.None?
  {
    EncodedSlashes();
    var p: Bytes := "%2F/x";
    assert StoredPath(Blank, p) == "//x";
    assert OpensAuthority(Blank, p);
  }

  // ---------------------------------------------------------------------
  // absolutize

  /** The fragment always comes from the relative reference. */
  lemma ResolveFragment(b: Components, relative: Bytes)
    requires relative != []
    ensures Resolve(b, relative).fragment == Construct(relative).fragment
  {
    var parts := IriParse.ParseIri(relative);
    var c1 := WithScheme(Blank, Some(parts.scheme)).c;
    var c2 := WithAuthority(c1, parts.authority).c;
    var c3 := WithPath(c2, Some(parts.path)).c;
    var c4 := WithQuery(c3, Some(parts.query)).c;
    FragmentSettles(c4, Some(parts.fragment));
  }

  /** What Construct stores for the path of a reference without a scheme:
      the normalised path, dot segments and all. */
  lemma RelativePathKeepsDots(relative: Bytes)
    requires Construct(relative).scheme.None?
    ensures var path := IriParse.ParseIri(relative).path;
            Construct(relative).path.Some? ==> Construct(relative).path.value == Normalized(path, PathChars, SameCase)
  {
    var parts := IriParse.ParseIri(relative);
    var c1 := WithScheme(Blank, Some(parts.scheme)).c;
    AuthorityFields(c1, SplitAuthority(parts.authority));
    var c2 := WithAuthority(c1, parts.authority).c;
    assert c2.scheme == c1.scheme;
  }

  /** A reference with an authority keeps its own authority, path, query
      and fragment and takes the base's scheme. Its path keeps any dot
      segments (see RelativePathKeepsDots): it was set while there was
      no scheme, and set_scheme does not revisit it. */
  lemma ResolveWithAuthority(b: Components, relative: Bytes)
    requires Settled(b) && relative != []
    requires Construct(relative).scheme.None? && GetIri(b).Some?
    requires GetAuthority(Construct(relative)).Some?
    ensures var r := Resolve(b, relative);
            var rel := Construct(relative);
            r.scheme == b.scheme && r.userinfo == rel.userinfo && r.host == rel.host &&
            r.port == rel.port && r.path == rel.path && r.query == rel.query && r.fragment == rel.fragment
  {
    ResolveFragment(b, relative);
  }

  /** A reference without scheme or authority takes the base's scheme and
      authority. */
  lemma ResolveTakesBase(b: Components, relative: Bytes)
    requires Settled(b) && relative != []
    requires Construct(relative).scheme.None? && GetIri(b).Some?
    requires GetAuthority(Construct(relative)).None?
    ensures var r := Resolve(b, relative);
            r.scheme == b.scheme && r.userinfo == b.userinfo && r.host == b.host && r.port == b.port &&
            r.fragment == Construct(relative).fragment
  {
    var rel := Construct(relative);
    ResolveFragment(b, relative);
    AgainstMerge(b, rel);
    var t := BaseAuthority(b);
    BaseAuthorityKept(b);
    var m := MergePath(t, b, rel);
    MergeKeepsAuthority(t, b, rel);
    assert Resolve(b, relative) == WithFragment(m, rel.fragment).c;
  }

  /** Setting the path and the query leaves scheme and authority alone. */
  lemma MergeKeepsAuthority(t: Components, b: Components, rel: Components)
    ensures var m := MergePath(t, b, rel);
            m.scheme == t.scheme && m.userinfo == t.userinfo && m.host == t.host && m.port == t.port
  {
  }

  /** Construct's query is in normal form, so set_query leaves it. */
  lemma ConstructQuery(relative: Bytes)
    ensures var rel := Construct(relative);
            WithQuery(rel, rel.query).c.query == rel.query
  {
    var parts := IriParse.ParseIri(relative);
    var c1 := WithScheme(Blank, Some(parts.scheme)).c;
    var c2 := WithAuthority(c1, parts.authority).c;
    var c3 := WithPath(c2, Some(parts.path)).c;
    QuerySettles(c3, Some(parts.query));
  }

  /** The merge with a relative path: the path set_path on the base would
      store for the merged path, and the reference's query. */
  lemma MergeWithPath(b: Components, rel: Components)
    requires Settled(b) && rel.path.Some?
    ensures var m := Merge(b, rel);
            m.path == WithPath(b, Some(MergedPath(b, rel.path.value))).c.path &&
            m.query == WithQuery(b, rel.query).c.query
  {
    BaseAuthorityKept(b);
    var t4 := BaseAuthority(b);
    var merged := Some(MergedPath(b, rel.path.value));
    var t5 := WithPath(t4, merged).c;
    assert t5.path == WithPath(b, merged).c.path by {
      assert t4.scheme == b.scheme && HasAuthority(t4) == HasAuthority(b);
    }
    assert Merge(b, rel) == WithQuery(t5, rel.query).c;
  }

  /** The merge without a relative path: the base path, and the base query
      unless the reference has one. */
  lemma MergeWithoutPath(b: Components, rel: Components)
    requires Settled(b) && rel.path.None?
    ensures var m := Merge(b, rel);
            m.path == (if b.path == Some([]) then None else b.path) &&
            m.query == (if rel.query.Some? then WithQuery(b, rel.query).c.query else b.query)
  {
    BaseAuthorityKept(b);
    BaseAuthorityOnly(b);
    var t4 := BaseAuthority(b);
    assert t4.scheme == b.scheme && HasAuthority(t4) == HasAuthority(b);
  }

  /** Against a base: the fragment setter leaves the merged path and query. */
  lemma AgainstWithPath(b: Components, rel: Components)
    requires Settled(b) && GetAuthority(rel).None? && rel.path.Some?
    requires WithQuery(rel, rel.query).c.query == rel.query
    ensures var r := Against(b, rel);
            r.path == WithPath(b, Some(MergedPath(b, rel.path.value))).c.path && r.query == rel.query
  {
    MergeWithPath(b, rel);
    assert WithQuery(b, rel.query).c.query == WithQuery(rel, rel.query).c.query;
  }

  lemma AgainstWithoutPath(b: Components, rel: Components)
    requires Settled(b) && GetAuthority(rel).None? && rel.path.None?
    requires WithQuery(rel, rel.query).c.query == rel.query
    ensures var r := Against(b, rel);
            r.path == (if b.path == Some([]) then None else b.path) && r.query == (if rel.query.Some? then rel.query else b.query)
  {
    MergeWithoutPath(b, rel);
    assert WithQuery(b, rel.query).c.query == WithQuery(rel, rel.query).c.query;
  }

  /** With a path of its own, the reference gets the path set_path on the
      base would store for the merged path, and its own query. */
  lemma ResolveMergedPath(b: Components, relative: Bytes)
    requires Settled(b) && relative != []
    requires Construct(relative).scheme.None? && GetIri(b).Some?
    requires GetAuthority(Construct(relative)).None?
    requires Construct(relative).path.Some?
    ensures var r := Resolve(b, relative);
            var rel := Construct(relative);
            r.path == WithPath(b, Some(MergedPath(b, rel.path.value))).c.path && r.query == rel.query
  {
    ConstructQuery(relative);
    AgainstWithPath(b, Construct(relative));
  }

  /** Without a path of its own, the reference keeps the base path, and
      the base query unless it has a query of its own. */
  lemma ResolveBasePath(b: Components, relative: Bytes)
    requires Settled(b) && relative != []
    requires Construct(relative).scheme.None? && GetIri(b).Some?
    requires GetAuthority(Construct(relative)).None?
    requires Construct(relative).path.None?
    ensures var r := Resolve(b, relative);
            var rel := Construct(relative);
            r.path == (if b.path == Some([]) then None else b.path) && r.query == (if rel.query.Some? then rel.query else b.query)
  {
    ConstructQuery(relative);
    AgainstWithoutPath(b, Construct(relative));
  }
}
