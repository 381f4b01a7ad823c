/** The setters, the constructor and absolutize of the IRI class exactly as
    the source writes them: replace_invalid_with_pct_encoding's loop as
    written (which can spin forever), set_scheme's check of the first two
    bytes, set_authority's split at the first ':' after the userinfo, and
    set_path's check of the path it is given rather than the path it
    stores. IriComponents and the class in iri.dfy run the corrected
    versions (see README, "Findings"). The lemmas here prove the two equal
    on every input that avoids the defects, say exactly where they part
    ways, and exhibit inputs on which they do. */
module IriAsWritten {
  import opened Text
  import opened PctEncoding
  import opened IriComponents
  import NormalForms
  import DotSegments
  import DotExamples
  import IPv6Check
  import IriParse
  import IriProperties

  // ---------------------------------------------------------------------
  // The setters as written. A setter that runs the loop yields None where
  // the loop never returns.

  /** set_scheme as written: '' or null clears the scheme; a scheme whose
      first byte is a letter and whose second byte, if any, is a scheme
      byte is stored lower-cased; any other clears it and fails. */
  function SchemeAsWritten(c: Components, scheme: Option<Bytes>): (r: Update)
    ensures r.ok <==> !Given(scheme) || SchemeAccepted(scheme.value)
    ensures r.c.scheme.Some? <==> Given(scheme) && r.ok
    ensures r.c.scheme.Some? ==> r.c.scheme.value == Lower(scheme.value)
    ensures r.c == c.(scheme := r.c.scheme, valid := c.valid[Scheme := r.ok])
  {
    if !Given(scheme) then
      Update(c.(scheme := None, valid := c.valid[Scheme := true]), true)
    else if SchemeAccepted(scheme.value) then
      Update(c.(scheme := Some(Lower(scheme.value)), valid := c.valid[Scheme := true]), true)
    else
      Update(c.(scheme := None, valid := c.valid[Scheme := false]), false)
  }

  /** What a setter makes of its argument with the loop as written: null
      for null or '', the loop's result otherwise, and None where the
      loop never returns. */
  function Encoded(o: Option<Bytes>, cs: CharSet, mode: CaseMode): (r: Option<Option<Bytes>>)
    ensures r.None? <==> Given(o) && Replaced(o.value, cs, mode).Diverges?
    ensures r.Some? ==> (r.value.Some? <==> Given(o))
    ensures r.Some? && r.value.Some? ==> Replaced(o.value, cs, mode) == Halts(r.value.value)
  {
    if !Given(o) then Some(None)
    else
      match Replaced(o.value, cs, mode)
      case Halts(s) => Some(Some(s))
      case Diverges => None
  }

  /** set_userinfo as written. */
  function UserinfoAsWritten(c: Components, userinfo: Option<Bytes>): (r: Option<Update>)
    ensures r.None? <==> Given(userinfo) && Replaced(userinfo.value, UserinfoChars, SameCase).Diverges?
    ensures r.Some? ==> r.value.ok && (r.value.c.userinfo.Some? <==> Given(userinfo))
    ensures r.Some? ==> r.value.c == c.(userinfo := r.value.c.userinfo, valid := c.valid[Userinfo := true])
  {
    var u :- Encoded(userinfo, UserinfoChars, SameCase);
    Some(Update(c.(userinfo := u, valid := c.valid[Userinfo := true]), true))
  }

  /** set_query as written. */
  function QueryAsWritten(c: Components, query: Option<Bytes>): (r: Option<Update>)
    ensures r.None? <==> Given(query) && Replaced(query.value, QueryChars, SameCase).Diverges?
    ensures r.Some? ==> r.value.ok && (r.value.c.query.Some? <==> Given(query))
    ensures r.Some? ==> r.value.c == c.(query := r.value.c.query, valid := c.valid[Query := true])
  {
    var q :- Encoded(query, QueryChars, SameCase);
    Some(Update(c.(query := q, valid := c.valid[Query := true]), true))
  }

  /** set_fragment as written: the query's set of valid characters. */
  function FragmentAsWritten(c: Components, fragment: Option<Bytes>): (r: Option<Update>)
    ensures r.None? <==> Given(fragment) && Replaced(fragment.value, QueryChars, SameCase).Diverges?
    ensures r.Some? ==> r.value.ok && (r.value.c.fragment.Some? <==> Given(fragment))
    ensures r.Some? ==> r.value.c == c.(fragment := r.value.c.fragment, valid := c.valid[Fragment := true])
  {
    var f :- Encoded(fragment, QueryChars, SameCase);
    Some(Update(c.(fragment := f, valid := c.valid[Fragment := true]), true))
  }

  /** set_host as written: the bracketed branch is the corrected one's;
      any other host goes through the loop, lower-cased. */
  function HostAsWritten(c: Components, host: Option<Bytes>): (r: Option<Update>)
    ensures r.None? <==> Given(host) && !Bracketed(host.value) && Replaced(host.value, HostChars, Lowercase).Diverges?
    ensures r.Some? ==> (r.value.ok <==> !Given(host) || !Bracketed(host.value) || IPv6Check.IsIPv6Address(Literal(host.value)))
    ensures r.Some? ==> (r.value.c.host.Some? <==> Given(host) && r.value.ok)
    ensures r.Some? ==> r.value.c == c.(host := r.value.c.host, valid := c.valid[Host := r.value.ok])
  {
    if !Given(host) then
      Some(Update(c.(host := None, valid := c.valid[Host := true]), true))
    else if Bracketed(host.value) then
      if IPv6Check.IsIPv6Address(Literal(host.value)) then
        Some(Update(c.(host := host, valid := c.valid[Host := true]), true))
      else
        Some(Update(c.(host := None, valid := c.valid[Host := false]), false))
    else
      var h :- Encoded(host, HostChars, Lowercase);
      Some(Update(c.(host := h, valid := c.valid[Host := true]), true))
  }

  /** set_path as written: the "//" check looks at the path it is given;
      what is stored is the loop's result, with dot segments removed when
      a scheme is set. */
  function PathAsWritten(c: Components, path: Option<Bytes>): (r: Option<Update>)
    ensures r.None? <==> Given(path) && (!StartsWith(path.value, TwoSlashes) || HasAuthority(c)) &&
                         Replaced(path.value, PathChars, SameCase).Diverges?
    ensures r.Some? ==> (r.value.ok <==> !Given(path) || !StartsWith(path.value, TwoSlashes) || HasAuthority(c))
    ensures r.Some? ==> (r.value.c.path.Some? <==> Given(path) && r.value.ok)
    ensures r.Some? ==> r.value.c == c.(path := r.value.c.path, valid := c.valid[Path := r.value.ok])
  {
    if !Given(path) then
      Some(Update(c.(path := None, valid := c.valid[Path := true]), true))
    else if StartsWith(path.value, TwoSlashes) && !HasAuthority(c) then
      Some(Update(c.(path := None, valid := c.valid[Path := false]), false))
    else
      var p :- Encoded(path, PathChars, SameCase);
      var stored := if c.scheme.Some? then DotSegments.RemoveDotSegments(p.value) else p.value;
      Some(Update(c.(path := Some(stored), valid := c.valid[Path := true]), true))
  }

  /** set_authority as written: split at the last '@' and at the first
      ':' after it, then set_userinfo && set_host && set_port. Since the
      host is cut at its first ':', no IPv6 literal reaches set_host. */
  function AuthorityAsWritten(c: Components, authority: Bytes): (r: Option<Update>)
    ensures r.Some? ==> r.value.c == c.(userinfo := r.value.c.userinfo, host := r.value.c.host,
                                        port := r.value.c.port, valid := r.value.c.valid)
    ensures r.Some? && r.value.ok ==> r.value.c.host.Some? || SplitAuthorityAsWritten(authority).host == []
  {
    var p := SplitAuthorityAsWritten(authority);
    var u :- UserinfoAsWritten(c, p.userinfo);
    var h :- HostAsWritten(u.c, Some(p.host));
    if h.ok then Some(WithPort(h.c, p.port)) else Some(Update(h.c, false))
  }

  // ---------------------------------------------------------------------
  // The constructor and absolutize as written

  /** new IRI($iri) as written. */
  function ConstructAsWritten(iri: Bytes): (r: Option<Components>)
    ensures var s := IriParse.ParseIri(iri).scheme;
            r.Some? ==> (r.value.scheme.Some? <==> s != [] && SchemeAccepted(s))
  {
    var parts := IriParse.ParseIri(iri);
    var c1 := SchemeAsWritten(Blank, Some(parts.scheme)).c;
    var u2 :- AuthorityAsWritten(c1, parts.authority);
    var u3 :- PathAsWritten(u2.c, Some(parts.path));
    var u4 :- QueryAsWritten(u3.c, Some(parts.query));
    var u5 :- FragmentAsWritten(u4.c, Some(parts.fragment));
    Some(u5.c)
  }

  /** absolutize($base, $relative) as written. */
  function ResolveAsWritten(base: Components, relative: Bytes): Option<Components>
  {
    if relative == [] then Some(base)
    else
      var rel :- ConstructAsWritten(relative);
      if rel.scheme.Some? || GetIri(base).None? then Some(rel)
      else AgainstAsWritten(base, rel)
  }

  /** A reference without scheme against a base that is not empty. */
  function AgainstAsWritten(base: Components, rel: Components): Option<Components>
  {
    var t :- if GetAuthority(rel).Some? then Some(SchemeAsWritten(rel, base.scheme).c) else MergeAsWritten(base, rel);
    var f :- FragmentAsWritten(t, rel.fragment);
    Some(f.c)
  }

  /** A new IRI('') given the base's scheme and authority, then the path
      and query. */
  function MergeAsWritten(base: Components, rel: Components): Option<Components>
  {
    var t4 :- TakeAuthorityAsWritten(Empty, base);
    MergePathAsWritten(t4, base, rel)
  }

  function TakeAuthorityAsWritten(t: Components, base: Components): Option<Components>
  {
    var t1 := SchemeAsWritten(t, base.scheme).c;
    var t2 :- UserinfoAsWritten(t1, base.userinfo);
    var t3 :- HostAsWritten(t2.c, base.host);
    Some(WithPort(t3.c, PortText(base.port)).c)
  }

  function MergePathAsWritten(t4: Components, base: Components, rel: Components): Option<Components>
  {
    if rel.path.Some? then
      var t5 :- PathAsWritten(t4, Some(MergedPath(base, rel.path.value)));
      var t6 :- QueryAsWritten(t5.c, rel.query);
      Some(t6.c)
    else
      var t5 :- PathAsWritten(t4, base.path);
      if rel.query.Some? then
        var t6 :- QueryAsWritten(t5.c, rel.query);
        Some(t6.c)
      else if base.query.Some? then
        var t6 :- QueryAsWritten(t5.c, base.query);
        Some(t6.c)
      else Some(t5.c)
  }

  // ---------------------------------------------------------------------
  // Where each setter as written agrees with the corrected one

  /** The case-mapped argument is tame: the loop as written gets it right. */
  predicate TameArg(o: Option<Bytes>, cs: CharSet, mode: CaseMode)
  {
    Given(o) ==> Tame(Recase(mode, o.value), cs)
  }

  /** A host argument the loop as written gets right, or a bracketed one,
      which skips the loop. */
  predicate TameHost(host: Option<Bytes>)
  {
    Given(host) && !Bracketed(host.value) ==> Tame(Recase(Lowercase, host.value), HostChars)
  }

  /** A scheme on which the two-byte check and the grammar agree. */
  predicate SchemeFaithful(scheme: Option<Bytes>)
  {
    Given(scheme) ==> ValidScheme(scheme.value) || !SchemeAccepted(scheme.value)
  }

  /** set_scheme as written is the corrected set_scheme exactly when the
      scheme is not one that passes the two-byte check and fails the
      grammar. */
  lemma SchemeAgrees(c: Components, scheme: Option<Bytes>)
    ensures SchemeAsWritten(c, scheme) == WithScheme(c, scheme) <==> SchemeFaithful(scheme)
  {
    if Given(scheme) {
      IriProperties.SchemeCheckCorrected(scheme.value);
    }
  }

  lemma UserinfoAgrees(c: Components, userinfo: Option<Bytes>)
    requires TameArg(userinfo, UserinfoChars, SameCase)
    ensures UserinfoAsWritten(c, userinfo) == Some(WithUserinfo(c, userinfo))
  {
    if Given(userinfo) {
      TameAgrees(userinfo.value, UserinfoChars, SameCase);
    }
  }

  lemma QueryAgrees(c: Components, query: Option<Bytes>)
    requires TameArg(query, QueryChars, SameCase)
    ensures QueryAsWritten(c, query) == Some(WithQuery(c, query))
  {
    if Given(query) {
      TameAgrees(query.value, QueryChars, SameCase);
    }
  }

  lemma FragmentAgrees(c: Components, fragment: Option<Bytes>)
    requires TameArg(fragment, QueryChars, SameCase)
    ensures FragmentAsWritten(c, fragment) == Some(WithFragment(c, fragment))
  {
    if Given(fragment) {
      TameAgrees(fragment.value, QueryChars, SameCase);
    }
  }

  lemma HostAgrees(c: Components, host: Option<Bytes>)
    requires TameHost(host)
    ensures HostAsWritten(c, host) == Some(WithHost(c, host))
  {
    if Given(host) && !Bracketed(host.value) {
      TameAgrees(host.value, HostChars, Lowercase);
    }
  }

  /** The "//" check on the given path and the one on the stored path give
      the same answer. */
  predicate PathChecksAgree(c: Components, path: Option<Bytes>)
  {
    Given(path) ==> (OpensAuthority(c, path.value) <==> !HasAuthority(c) && StartsWith(path.value, TwoSlashes))
  }

  /** On a tame path, set_path as written is the corrected set_path
      exactly when the two "//" checks agree. */
  lemma PathAgrees(c: Components, path: Option<Bytes>)
    requires TameArg(path, PathChars, SameCase)
    ensures PathAsWritten(c, path) == Some(WithPath(c, path)) <==> PathChecksAgree(c, path)
  {
    if Given(path) {
      TameAgrees(path.value, PathChars, SameCase);
    }
  }

  /** The host part of set_authority's argument does not start with '['. */
  predicate NoLiteral(authority: Bytes)
  {
    var rest := SplitUserinfo(authority).1;
    rest == [] || rest[0] != '['
  }

  /** Without a bracketed literal both splits cut the port at the first ':'. */
  lemma SplitsAgree(authority: Bytes)
    requires NoLiteral(authority)
    ensures SplitAuthorityAsWritten(authority) == SplitAuthority(authority)
  {
  }

  /** An authority on which set_authority as written and the corrected one
      agree: the same split, and parts the loop gets right. */
  predicate AuthorityFaithful(authority: Bytes)
  {
    var p := SplitAuthority(authority);
    SplitAuthorityAsWritten(authority) == p &&
    TameArg(p.userinfo, UserinfoChars, SameCase) && TameHost(Some(p.host))
  }

  lemma AuthorityAgrees(c: Components, authority: Bytes)
    requires AuthorityFaithful(authority)
    ensures AuthorityAsWritten(c, authority) == Some(WithAuthority(c, authority))
  {
    var p := SplitAuthority(authority);
    UserinfoAgrees(c, p.userinfo);
    var u := WithUserinfo(c, p.userinfo);
    HostAgrees(u.c, Some(p.host));
  }

  /** An IRI whose five parts avoid every defect: the constructor as
      written and the corrected one build the same object. */
  predicate Faithful(iri: Bytes)
  {
    var parts := IriParse.ParseIri(iri);
    var c1 := WithScheme(Blank, Some(parts.scheme)).c;
    var c2 := WithAuthority(c1, parts.authority).c;
    SchemeFaithful(Some(parts.scheme)) && AuthorityFaithful(parts.authority) &&
    TameArg(Some(parts.path), PathChars, SameCase) && PathChecksAgree(c2, Some(parts.path)) &&
    TameArg(Some(parts.query), QueryChars, SameCase) && TameArg(Some(parts.fragment), QueryChars, SameCase)
  }

  lemma ConstructAgrees(iri: Bytes)
    requires Faithful(iri)
    ensures ConstructAsWritten(iri) == Some(Construct(iri))
  {
    var parts := IriParse.ParseIri(iri);
    SchemeAgrees(Blank, Some(parts.scheme));
    var c1 := WithScheme(Blank, Some(parts.scheme)).c;
    AuthorityAgrees(c1, parts.authority);
    var c2 := WithAuthority(c1, parts.authority).c;
    PathAgrees(c2, Some(parts.path));
    var c3 := WithPath(c2, Some(parts.path)).c;
    QueryAgrees(c3, Some(parts.query));
    var c4 := WithQuery(c3, Some(parts.query)).c;
    FragmentAgrees(c4, Some(parts.fragment));
  }

  /** new IRI('') as written is the object with every field null. */
  lemma ConstructAsWrittenEmpty()
    ensures ConstructAsWritten([]) == Some(Empty)
  {
    EmptyParsed();
    assert SplitAuthority([]) == AuthorityParts(None, [], None);
    assert Faithful([]);
    ConstructAgrees([]);
    ConstructEmpty();
  }

  // ---------------------------------------------------------------------
  // absolutize: a settled base and a faithful reference

  /** A settled object's fields are what the setters store, and the loop
      as written gets each of them right when they are set again. */
  lemma SettledTame(b: Components)
    requires IriProperties.Settled(b)
    ensures SchemeFaithful(b.scheme)
    ensures TameArg(b.userinfo, UserinfoChars, SameCase) && TameHost(b.host)
    ensures TameArg(b.query, QueryChars, SameCase) && TameArg(b.fragment, QueryChars, SameCase)
    ensures Given(b.path) ==> Normal(b.path.value, PathChars) && !OpensAuthority(b, b.path.value)
  {
    if Given(b.userinfo) {
      NormalTame(b.userinfo.value, UserinfoChars);
    }
    if Given(b.host) && !Bracketed(b.host.value) {
      NormalForms.NormalLowerTame(b.host.value, HostChars);
    }
    if Given(b.query) {
      NormalTame(b.query.value, QueryChars);
    }
    if Given(b.fragment) {
      NormalTame(b.fragment.value, QueryChars);
    }
  }

  /** Base path up to its last '/', then the reference's path: normal
      when both are. */
  lemma MergedNormal(base: Components, relPath: Bytes)
    requires Normal(relPath, PathChars)
    requires Given(base.path) ==> Normal(base.path.value, PathChars)
    ensures Normal(MergedPath(base, relPath), PathChars)
  {
    var r := MergedPath(base, relPath);
    var prefix := r[..|r| - |relPath|];
    assert r == prefix + relPath;
    NormalForms.SlashNormal(PathChars);
    if prefix != [] && prefix != DotSegments.Slash {
      var bp := base.path.value;
      var j := |prefix| - 1;
      assert bp[j] == '/' && bp[..j] == prefix[..j];
      NormalForms.NormalSplit(bp, PathChars, j);
      assert prefix == bp[..j] + DotSegments.Slash;
      NormalConcat(bp[..j], DotSegments.Slash, PathChars);
    }
    NormalConcat(prefix, relPath, PathChars);
  }

  /** The merged path's "//" checks agree. Always so when the base has an
      authority (MergeFaithfulWithAuthority). */
  predicate MergeFaithful(base: Components, rel: Components)
  {
    rel.path.Some? ==> PathChecksAgree(BaseAuthority(base), Some(MergedPath(base, rel.path.value)))
  }

  lemma MergeFaithfulWithAuthority(base: Components, rel: Components)
    requires IriProperties.Settled(base) && HasAuthority(base)
    ensures MergeFaithful(base, rel)
  {
    IriProperties.BaseAuthorityKept(base);
  }

  lemma TakeAuthorityAgrees(t: Components, base: Components)
    requires SchemeFaithful(base.scheme)
    requires TameArg(base.userinfo, UserinfoChars, SameCase) && TameHost(base.host)
    ensures TakeAuthorityAsWritten(t, base) == Some(TakeAuthority(t, base))
  {
    SchemeAgrees(t, base.scheme);
    var t1 := WithScheme(t, base.scheme).c;
    UserinfoAgrees(t1, base.userinfo);
    var t2 := WithUserinfo(t1, base.userinfo).c;
    HostAgrees(t2, base.host);
  }

  lemma MergeAgrees(base: Components, rel: Components)
    requires IriProperties.Settled(base) && IriProperties.Settled(rel) && MergeFaithful(base, rel)
    ensures MergeAsWritten(base, rel) == Some(Merge(base, rel))
  {
    SettledTame(base);
    SettledTame(rel);
    TakeAuthorityAgrees(Empty, base);
    var t4 := BaseAuthority(base);
    IriProperties.BaseAuthorityKept(base);
    if rel.path.Some? {
      var m := MergedPath(base, rel.path.value);
      MergedNormal(base, rel.path.value);
      NormalTame(m, PathChars);
      PathAgrees(t4, Some(m));
      QueryAgrees(WithPath(t4, Some(m)).c, rel.query);
    } else {
      if Given(base.path) {
        NormalTame(base.path.value, PathChars);
        assert StoredPath(t4, base.path.value) == StoredPath(base, base.path.value);
      }
      PathAgrees(t4, base.path);
      var t5 := WithPath(t4, base.path).c;
      QueryAgrees(t5, rel.query);
      QueryAgrees(t5, base.query);
    }
  }

  lemma AgainstAgrees(base: Components, rel: Components)
    requires IriProperties.Settled(base) && IriProperties.Settled(rel) && MergeFaithful(base, rel)
    ensures AgainstAsWritten(base, rel) == Some(Against(base, rel))
  {
    SettledTame(base);
    SettledTame(rel);
    if GetAuthority(rel).Some? {
      SchemeAgrees(rel, base.scheme);
      FragmentAgrees(WithScheme(rel, base.scheme).c, rel.fragment);
    } else {
      MergeAgrees(base, rel);
      FragmentAgrees(Merge(base, rel), rel.fragment);
    }
  }

  /** absolutize as written resolves a faithful reference against a
      settled base (every object the constructor builds is one) exactly
      as the corrected absolutize does. */
  lemma ResolveAgrees(base: Components, relative: Bytes)
    requires IriProperties.Settled(base)
    requires relative != [] ==> Faithful(relative) && MergeFaithful(base, Construct(relative))
    ensures ResolveAsWritten(base, relative) == Some(Resolve(base, relative))
  {
    if relative != [] {
      ConstructAgrees(relative);
      var rel := Construct(relative);
      if rel.scheme.None? && GetIri(base).Some? {
        IriProperties.ConstructSettled(relative);
        AgainstAgrees(base, rel);
      }
    }
  }

  // ---------------------------------------------------------------------
  // Inputs on which the two part ways

  /** iri.php:424-432: the host is cut at the first ':', so "[::1]" gives
      host "[" and port ":1]", and set_authority fails (the corrected one
      keeps the literal: IriProperties.LoopbackHostKept). */
  lemma LoopbackAsWritten(c: Components)
    ensures AuthorityAsWritten(c, "[::1]").Some?
    ensures !AuthorityAsWritten(c, "[::1]").value.ok
  {
    IriProperties.AuthoritySplitAsWritten();
    var u := UserinfoAsWritten(c, None).value;
    OpenBracketHost(u.c);
    var h := HostAsWritten(u.c, Some("[")).value;
    OpenBracketPort(h.c);
  }

  /** set_host("[") as written stores it: a lone '[' is not bracketed. */
  lemma OpenBracketHost(c: Components)
    ensures HostAsWritten(c, Some("[")).Some? && HostAsWritten(c, Some("[")).value.ok
  {
    var open: Bytes := "[";
    assert !Bracketed(open);
    assert Tame(Recase(Lowercase, open), HostChars) by {
      assert Recase(Lowercase, open) == open;
      assert open[1..] == [];
    }
    TameAgrees(open, HostChars, Lowercase);
  }

  /** set_port(":1]") fails. */
  lemma OpenBracketPort(c: Components)
    ensures !WithPort(c, Some(":1]")).ok
  {
    var port: Bytes := ":1]";
    assert !IsDigit(port[0]);
  }

  /** The object "a:", a scheme and nothing else. */
  function SchemeA(): (r: Components)
    ensures r.scheme == Some("a") && !HasAuthority(r) && r.path.None? && r.query.None? && r.fragment.None?
  {
    var a: Bytes := "a";
    assert SchemeAccepted(a) && Lower(a) == a;
    SchemeAsWritten(Blank, Some(a)).c
  }

  /** "/.//x" passes set_path's check, and dot-segment removal turns it
      into "//x". */
  lemma DotSlashStored()
    ensures Replaced("/.//x", PathChars, SameCase) == Halts("/.//x")
    ensures DotSegments.RemoveDotSegments("/.//x") == "//x"
  {
    var p: Bytes := "/.//x";
    assert forall i :: 0 <= i < |p| ==> Allowed(PathChars, p[i]);
    AllowedUnchanged(p, PathChars);
    var rest: Bytes := "//x";
    assert p == DotSegments.SlashDot + rest;
    DotExamples.LoopSlashDot(rest, []);
    assert !DotSegments.HasDots(rest) by {
      assert !Contains(rest, DotSegments.DotSlash) && !Contains(rest, DotSegments.SlashDot);
    }
  }

  /** iri.php:538-546: with scheme "a", set_path("/.//x") as written stores
      "//x", and get_iri gives "a://x", which reads back with authority
      "x". */
  lemma DotSlashPathAsWritten()
    ensures var r := PathAsWritten(SchemeA(), Some("/.//x"));
            r.Some? && r.value.ok && r.value.c.path == Some("//x") && GetIri(r.value.c) == Some("a://x")
    ensures IriParse.ParseIri("a://x").authority == "x"
  {
    DotSlashPathStored();
    var c := PathAsWritten(SchemeA(), Some("/.//x")).value.c;
    SchemeAndPath(c);
    ReadsBackAuthority();
  }

  lemma DotSlashPathStored()
    ensures var r := PathAsWritten(SchemeA(), Some("/.//x"));
            r.Some? && r.value.ok && r.value.c == SchemeA().(path := Some("//x"), valid := r.value.c.valid)
  {
    var p: Bytes := "/.//x";
    assert !StartsWith(p, TwoSlashes) by {
      assert p[..2][1] == '.' && TwoSlashes[1] == '/';
    }
    DotSlashStored();
  }

  /** get_iri of the object with scheme "a" and path "//x". */
  lemma SchemeAndPath(c: Components)
    requires c.scheme == Some("a") && !HasAuthority(c) && c.path == Some("//x")
    requires c.query.None? && c.fragment.None?
    ensures GetIri(c) == Some("a://x")
  {
    var g := IriParse.Groups(Some("a"), None, "//x", None, None);
    assert Groups(c) == g by {
      assert AuthorityText(c) == [] by {
        assert PortText(c.port).None?;
      }
    }
    IriParse.ComposeLeft(g);
    assert IriParse.Compose(g) == "a://x";
  }

  /** "a://x" reads back with authority "x" and an empty path. */
  lemma ReadsBackAuthority()
    ensures IriParse.ParseIri("a://x").authority == "x"
  {
    var h := IriParse.Groups(Some("a"), Some("x"), [], None, None);
    assert IriParse.WellShaped(h);
    IriParse.MatchCompose(h);
    IriParse.ComposeLeft(h);
    assert IriParse.Compose(h) == "a://x";
  }

  /** The corrected set_path refuses it. */
  lemma DotSlashPathCorrected()
    ensures !WithPath(SchemeA(), Some("/.//x")).ok
  {
    var p: Bytes := "/.//x";
    DotSlashStoredPath();
    assert StartsWith(StoredPath(SchemeA(), p), TwoSlashes);
    assert OpensAuthority(SchemeA(), p);
  }

  lemma DotSlashStoredPath()
    ensures StoredPath(SchemeA(), "/.//x") == "//x"
  {
    var p: Bytes := "/.//x";
    DotSlashStored();
    TameAgrees(p, PathChars, SameCase);
    var n := Normalized(p, PathChars, SameCase);
    assert n == p;
    var c := SchemeA();
    assert StoredPath(c, p) == DotSegments.RemoveDotSegments(n);
  }
}
