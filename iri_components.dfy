/** The state of an IRI object as a value, and each of its operations as a
    function of that value: the setters (each returns the new state and
    the boolean the setter returns), get_authority, get_iri, is_valid,
    the constructor and absolutize. The class in iri.dfy runs the same
    operations on mutable fields and is proved equal to these functions. */
module IriComponents {
  import opened Text
  import opened PctEncoding
  import DotSegments
  import IPv6Check
  import NormalForms
  import IriParse

  /** The keys of $valid: the setter that recorded the entry. */
  datatype Setter = Scheme | Userinfo | Host | Port | Path | Query | Fragment

  /** The fields of an IRI object; None is PHP's null. */
  datatype Components = Components(
    scheme: Option<Bytes>, userinfo: Option<Bytes>, host: Option<Bytes>, port: Option<nat>,
    path: Option<Bytes>, query: Option<Bytes>, fragment: Option<Bytes>, valid: map<Setter, bool>)

  /** The new state after a setter, and what the setter returns. */
  datatype Update = Update(c: Components, ok: bool)

  /** Every field null and $valid empty: an object before its constructor
      runs. */
  const Blank := Components(None, None, None, None, None, None, None, map[])

  /** A setter argument that is neither null nor ''. */
  predicate Given(o: Option<Bytes>) { o.Some? && o.value != [] }

  const Colon: Bytes := ":"
  const At: Bytes := "@"
  const TwoSlashes: Bytes := "//"

  // ---------------------------------------------------------------------
  // set_scheme

  predicate SchemeChar(c: Byte) { IsAlpha(c) || IsDigit(c) || c == '+' || c == '-' || c == '.' }

  /** The scheme grammar of section 3.1 of RFC 3986:
      ALPHA *( ALPHA / DIGIT / "+" / "-" / "." ). */
  predicate ValidScheme(s: Bytes)
  {
    s != [] && IsAlpha(s[0]) && forall i :: 1 <= i < |s| ==> SchemeChar(s[i])
  }

  /** The test set_scheme makes as written: strspn from offset 1 is only
      compared with 0, so past the first byte only the second is looked
      at. */
  predicate SchemeAccepted(s: Bytes)
    requires s != []
  {
    IsAlpha(s[0]) && (|s| > 1 ==> SchemeChar(s[1]))
  }

  lemma LowerKeepsScheme(s: Bytes)
    requires ValidScheme(s)
    ensures ValidScheme(Lower(s))
  {
    var t := Lower(s);
    assert IsAlpha(t[0]);
    forall i | 1 <= i < |t|
      ensures SchemeChar(t[i])
    {
      assert SchemeChar(s[i]);
    }
  }

  /** set_scheme: '' or null clears the scheme; a scheme that fails the
      grammar clears it and fails; otherwise it is stored lower-cased. */
  function WithScheme(c: Components, scheme: Option<Bytes>): (r: Update)
    ensures r.ok <==> !Given(scheme) || ValidScheme(scheme.value)
    ensures r.c.scheme.Some? <==> Given(scheme) && r.ok
    ensures r.c.scheme.Some? ==> r.c.scheme.value == Lower(scheme.value) && ValidScheme(r.c.scheme.value)
    ensures r.c == c.(scheme := r.c.scheme, valid := c.valid[Scheme := r.ok])
  {
    if !Given(scheme) then
      Update(c.(scheme := None, valid := c.valid[Scheme := true]), true)
    else if ValidScheme(scheme.value) then
      LowerKeepsScheme(scheme.value);
      Update(c.(scheme := Some(Lower(scheme.value)), valid := c.valid[Scheme := true]), true)
    else
      Update(c.(scheme := None, valid := c.valid[Scheme := false]), false)
  }

  // ---------------------------------------------------------------------
  // set_userinfo, set_query, set_fragment: normalise, never fail

  /** The normaliser never empties a non-empty string. */
  lemma NormalizedNonEmpty(s: Bytes, cs: CharSet, mode: CaseMode)
    requires s != []
    ensures Normalized(s, cs, mode) != []
  {
    NormalizeFromNonEmpty(Recase(mode, s), cs, mode, 0);
  }

  lemma {:induction false} NormalizeFromNonEmpty(s: Bytes, cs: CharSet, mode: CaseMode, position: nat)
    requires position <= |s| && s != []
    ensures NormalizeFrom(s, cs, mode, position) != []
    decreases Bad(s, cs), |s| - position
  {
    if position < |s| {
      if Allowed(cs, s[position]) {
        NormalizeFromNonEmpty(s, cs, mode, position + 1);
      } else {
        var r := NormalizePass(s, cs, mode, position);
        PassNonEmpty(s, cs, mode, position);
        NormalizeFromNonEmpty(r.0, cs, mode, r.1);
      }
    }
  }

  lemma PassNonEmpty(s: Bytes, cs: CharSet, mode: CaseMode, p: nat)
    requires p < |s| && !Allowed(cs, s[p])
    ensures NormalizePass(s, cs, mode, p).0 != []
  {
    if s[p] != '%' {
      ReplaceByteLength(s, s[p], Triplet(s[p]));
    }
  }

  function Normalize(o: Option<Bytes>, cs: CharSet): (r: Option<Bytes>)
    ensures r.Some? <==> Given(o)
    ensures r.Some? ==> r.value != [] && Normal(r.value, cs)
  {
    if Given(o) then
      NormalizedIsNormal(o.value, cs, SameCase);
      NormalizedNonEmpty(o.value, cs, SameCase);
      Some(Normalized(o.value, cs, SameCase))
    else None
  }

  lemma NormalizeExcludes(o: Option<Bytes>, cs: CharSet, c: Byte)
    requires !Allowed(cs, c) && c != '%'
    ensures Normalize(o, cs).Some? ==> c !in Normalize(o, cs).value
  {
    if Given(o) {
      NormalExcludes(Normalize(o, cs).value, cs, c);
    }
  }

  /** set_userinfo: null or '' clears it; anything else is stored in
      normal form; always succeeds. */
  function WithUserinfo(c: Components, userinfo: Option<Bytes>): (r: Update)
    ensures r.ok
    ensures r.c.userinfo.Some? <==> Given(userinfo)
    ensures r.c.userinfo.Some? ==> r.c.userinfo.value == Normalized(userinfo.value, UserinfoChars, SameCase)
    ensures r.c.userinfo.Some? ==> Normal(r.c.userinfo.value, UserinfoChars) && '@' !in r.c.userinfo.value
    ensures r.c == c.(userinfo := r.c.userinfo, valid := c.valid[Userinfo := true])
  {
    var u := Normalize(userinfo, UserinfoChars);
    NormalizeExcludes(userinfo, UserinfoChars, '@');
    Update(c.(userinfo := u, valid := c.valid[Userinfo := true]), true)
  }

  /** set_query. */
  function WithQuery(c: Components, query: Option<Bytes>): (r: Update)
    ensures r.ok
    ensures r.c.query.Some? <==> Given(query)
    ensures r.c.query.Some? ==> r.c.query.value == Normalized(query.value, QueryChars, SameCase)
    ensures r.c.query.Some? ==> Normal(r.c.query.value, QueryChars) && '#' !in r.c.query.value
    ensures r.c == c.(query := r.c.query, valid := c.valid[Query := true])
  {
    var q := Normalize(query, QueryChars);
    NormalizeExcludes(query, QueryChars, '#');
    Update(c.(query := q, valid := c.valid[Query := true]), true)
  }

  /** set_fragment: the query's set of valid characters. */
  function WithFragment(c: Components, fragment: Option<Bytes>): (r: Update)
    ensures r.ok
    ensures r.c.fragment.Some? <==> Given(fragment)
    ensures r.c.fragment.Some? ==> r.c.fragment.value == Normalized(fragment.value, QueryChars, SameCase)
    ensures r.c.fragment.Some? ==> Normal(r.c.fragment.value, QueryChars) && '\n' !in r.c.fragment.value
    ensures r.c == c.(fragment := r.c.fragment, valid := c.valid[Fragment := true])
  {
    var f := Normalize(fragment, QueryChars);
    NormalizeExcludes(fragment, QueryChars, '\n');
    Update(c.(fragment := f, valid := c.valid[Fragment := true]), true)
  }

  // ---------------------------------------------------------------------
  // set_host

  /** $host[0] === '[' && substr($host, -1) === ']'. */
  predicate Bracketed(h: Bytes) { |h| >= 2 && h[0] == '[' && h[|h| - 1] == ']' }

  /** What is between the brackets: substr($host, 1, -1). */
  function Literal(h: Bytes): Bytes
    requires Bracketed(h)
  {
    h[1..|h| - 1]
  }

  /** set_host: null or '' clears it; a bracketed host is kept verbatim
      when checkIPv6 accepts what is inside, and cleared with failure
      otherwise; any other host is normalised and lower-cased. */
  function WithHost(c: Components, host: Option<Bytes>): (r: Update)
    ensures r.ok <==> !Given(host) || !Bracketed(host.value) || IPv6Check.IsIPv6Address(Literal(host.value))
    ensures r.c.host.Some? <==> Given(host) && r.ok
    ensures r.c.host.Some? && Bracketed(host.value) ==> r.c.host.value == host.value
    ensures r.c.host.Some? && !Bracketed(host.value) ==>
              r.c.host.value == Normalized(host.value, HostChars, Lowercase) &&
              Normal(r.c.host.value, HostChars) && r.c.host.value != []
    ensures r.c == c.(host := r.c.host, valid := c.valid[Host := r.ok])
  {
    if !Given(host) then
      Update(c.(host := None, valid := c.valid[Host := true]), true)
    else if Bracketed(host.value) then
      if IPv6Check.IsIPv6Address(Literal(host.value)) then
        Update(c.(host := host, valid := c.valid[Host := true]), true)
      else
        Update(c.(host := None, valid := c.valid[Host := false]), false)
    else
      NormalizedIsNormal(host.value, HostChars, Lowercase);
      NormalizedNonEmpty(host.value, HostChars, Lowercase);
      Update(c.(host := Some(Normalized(host.value, HostChars, Lowercase)), valid := c.valid[Host := true]), true)
  }

  // ---------------------------------------------------------------------
  // set_port

  /** set_port: null or '' clears it; a string of digits is stored as its
      value; anything else clears it and fails. */
  function WithPort(c: Components, port: Option<Bytes>): (r: Update)
    ensures r.ok <==> !Given(port) || AllDigits(port.value)
    ensures r.c.port.Some? <==> Given(port) && r.ok
    ensures r.c.port.Some? ==> AllDigits(port.value) && r.c.port.value == DecimalValue(port.value)
    ensures r.c == c.(port := r.c.port, valid := c.valid[Port := r.ok])
  {
    if !Given(port) then
      Update(c.(port := None, valid := c.valid[Port := true]), true)
    else if AllDigits(port.value) then
      Update(c.(port := Some(DecimalValue(port.value)), valid := c.valid[Port := true]), true)
    else
      Update(c.(port := None, valid := c.valid[Port := false]), false)
  }

  /** A port as the string PHP makes of the integer. */
  function PortText(port: Option<nat>): (r: Option<Bytes>)
    ensures port.Some? ==> Given(r) && AllDigits(r.value) && DecimalValue(r.value) == port.value
    ensures port.None? ==> r.None?
  {
    if port.Some? then
      DecimalRoundTrip(port.value);
      Some(DecimalString(port.value))
    else None
  }

  // ---------------------------------------------------------------------
  // set_path

  predicate HasAuthority(c: Components) { c.userinfo.Some? || c.host.Some? || c.port.Some? }

  /** What set_path stores for a non-empty path: the path normalised, and
      with dot segments removed when a scheme is set. */
  function StoredPath(c: Components, path: Bytes): (r: Bytes)
    requires path != []
    ensures c.scheme.None? ==> r == Normalized(path, PathChars, SameCase) && r != []
    ensures c.scheme.Some? ==> r == DotSegments.RemoveDotSegments(Normalized(path, PathChars, SameCase))
    ensures c.scheme.Some? ==> DotSegments.DotFree(r)
    ensures Normal(r, PathChars)
  {
    var p := Normalized(path, PathChars, SameCase);
    NormalizedNonEmpty(path, PathChars, SameCase);
    NormalizedIsNormal(path, PathChars, SameCase);
    DotSegments.ResultDotFree(p);
    NormalForms.RemovedNormal(p, PathChars);
    if c.scheme.Some? then DotSegments.RemoveDotSegments(p) else p
  }

  /** Whether a path would be read back as an authority. */
  predicate OpensAuthority(c: Components, path: Bytes)
    requires path != []
  {
    !HasAuthority(c) && (StartsWith(path, TwoSlashes) || StartsWith(StoredPath(c, path), TwoSlashes))
  }

  /** set_path with the check applied to the stored path as well: without
      an authority, no stored path starts with "//". */
  function WithPath(c: Components, path: Option<Bytes>): (r: Update)
    ensures r.ok <==> !Given(path) || !OpensAuthority(c, path.value)
    ensures r.c.path.Some? <==> Given(path) && r.ok
    ensures r.c.path.Some? ==> r.c.path.value == StoredPath(c, path.value)
    ensures r.c.path.Some? && !HasAuthority(c) ==> !StartsWith(r.c.path.value, TwoSlashes)
    ensures r.c == c.(path := r.c.path, valid := c.valid[Path := r.ok])
  {
    if !Given(path) then
      Update(c.(path := None, valid := c.valid[Path := true]), true)
    else if OpensAuthority(c, path.value) then
      Update(c.(path := None, valid := c.valid[Path := false]), false)
    else
      Update(c.(path := Some(StoredPath(c, path.value)), valid := c.valid[Path := true]), true)
  }

  // ---------------------------------------------------------------------
  // set_authority

  /** The three strings set_authority hands on. */
  datatype AuthorityParts = AuthorityParts(userinfo: Option<Bytes>, host: Bytes, port: Option<Bytes>)

  /** The authority the parts spell. */
  function Joined(p: AuthorityParts): Bytes
  {
    (if p.userinfo.Some? then p.userinfo.value + At else []) + p.host +
    (if p.port.Some? then Colon + p.port.value else [])
  }

  /** The userinfo ends at the last '@'. */
  function SplitUserinfo(a: Bytes): (r: (Option<Bytes>, Bytes))
    ensures (if r.0.Some? then r.0.value + At else []) + r.1 == a
    ensures '@' !in r.1
  {
    match LastIndexOfChar(a, '@')
    case Some(i) =>
      assert a == a[..i] + At + a[i + 1..];
      (Some(a[..i]), a[i + 1..])
    case None => (None, a)
  }

  /** The host ends at the first ':' at or after from. */
  function SplitPort(rest: Bytes, from: nat): (r: (Bytes, Option<Bytes>))
    ensures r.0 + (if r.1.Some? then Colon + r.1.value else []) == rest
    ensures forall i :: from <= i < |r.0| ==> r.0[i] != ':'
    ensures r.1.Some? ==> |r.0| >= from
  {
    match IndexOfChar(rest, ':', from)
    case Some(j) =>
      assert rest == rest[..j] + Colon + rest[j + 1..];
      (rest[..j], Some(rest[j + 1..]))
    case None => (rest, None)
  }

  /** set_authority's split as written: the port starts at the first ':'
      after the userinfo, even inside a bracketed IPv6 literal. */
  function SplitAuthorityAsWritten(a: Bytes): (r: AuthorityParts)
    ensures Joined(r) == a
    ensures '@' !in r.host && (r.port.Some? ==> '@' !in r.port.value)
    ensures ':' !in r.host
  {
    var (userinfo, rest) := SplitUserinfo(a);
    var (host, port) := SplitPort(rest, 0);
    assert rest == host + (if port.Some? then Colon + port.value else []);
    AppendAssoc(if userinfo.Some? then userinfo.value + At else [], host, if port.Some? then Colon + port.value else []);
    AuthorityParts(userinfo, host, port)
  }

  /** Where the port search starts: past the first ']' when the host
      starts with '['. */
  function PortSearchStart(rest: Bytes): (n: nat)
    ensures n <= |rest|
    ensures n > 0 ==> rest[0] == '[' && rest[n - 1] == ']' && ']' !in rest[..n - 1]
  {
    if rest != [] && rest[0] == '[' then
      match IndexOfChar(rest, ']', 0)
      case Some(k) => k + 1
      case None => 0
    else 0
  }

  /** The split the host check evidently expects: a ':' inside a
      bracketed IPv6 literal is not the port separator. */
  function SplitAuthority(a: Bytes): (r: AuthorityParts)
    ensures Joined(r) == a
    ensures '@' !in r.host && (r.port.Some? ==> '@' !in r.port.value)
    ensures ':' in r.host ==> r.host[0] == '[' && ']' in r.host
  {
    var (userinfo, rest) := SplitUserinfo(a);
    var from := PortSearchStart(rest);
    var (host, port) := SplitPort(rest, from);
    assert rest == host + (if port.Some? then Colon + port.value else []);
    HostColon(rest, from, host, port);
    AppendAssoc(if userinfo.Some? then userinfo.value + At else [], host, if port.Some? then Colon + port.value else []);
    AuthorityParts(userinfo, host, port)
  }

  lemma HostColon(rest: Bytes, from: nat, host: Bytes, port: Option<Bytes>)
    requires from == PortSearchStart(rest) && (host, port) == SplitPort(rest, from)
    ensures ':' in host ==> host[0] == '[' && ']' in host
  {
    assert rest == host + (if port.Some? then Colon + port.value else []);
    if ':' in host {
      var i :| 0 <= i < |host| && host[i] == ':';
      assert i < from;
      assert host[0] == rest[0] && host[from - 1] == rest[from - 1];
    }
  }

  /** set_userinfo($userinfo) && set_host($host) && set_port($port): a host
      that fails leaves the port and its record as they were. */
  function ApplyAuthority(c: Components, p: AuthorityParts): Update
  {
    var u := WithUserinfo(c, p.userinfo);
    var h := WithHost(u.c, Some(p.host));
    if h.ok then WithPort(h.c, p.port) else Update(h.c, false)
  }

  /** set_authority succeeds exactly when the host and the port are
      accepted. */
  lemma AuthorityOk(c: Components, p: AuthorityParts)
    ensures ApplyAuthority(c, p).ok <==> WithHost(c, Some(p.host)).ok && WithPort(c, p.port).ok
  {
    var u := WithUserinfo(c, p.userinfo);
    assert WithHost(u.c, Some(p.host)).ok == WithHost(c, Some(p.host)).ok;
  }

  /** The fields set_authority leaves: a host that fails leaves the port
      as it was, and nothing outside the authority changes. */
  lemma AuthorityFields(c: Components, p: AuthorityParts)
    ensures var h := WithHost(c, Some(p.host));
            var r := ApplyAuthority(c, p).c;
            r.userinfo == WithUserinfo(c, p.userinfo).c.userinfo &&
            r.host == h.c.host &&
            r.port == (if h.ok then WithPort(c, p.port).c.port else c.port) &&
            r.(userinfo := c.userinfo, host := c.host, port := c.port, valid := c.valid) == c
  {
    var u := WithUserinfo(c, p.userinfo);
    var h := WithHost(u.c, Some(p.host));
    assert h.ok == WithHost(c, Some(p.host)).ok && h.c.host == WithHost(c, Some(p.host)).c.host;
    if h.ok {
      assert WithPort(h.c, p.port).c.port == WithPort(c, p.port).c.port;
    }
  }

  /** The records set_authority makes: userinfo and host always, the
      port only when the host was accepted. */
  lemma AuthorityRecords(c: Components, p: AuthorityParts)
    ensures var h := WithHost(c, Some(p.host));
            ApplyAuthority(c, p).c.valid ==
              c.valid[Userinfo := true][Host := h.ok] +
              (if h.ok then map[Port := WithPort(c, p.port).ok] else map[])
  {
    var u := WithUserinfo(c, p.userinfo);
    var h := WithHost(u.c, Some(p.host));
    assert h.ok == WithHost(c, Some(p.host)).ok;
    if h.ok {
      var v := h.c.valid[Port := WithPort(c, p.port).ok];
      assert WithPort(h.c, p.port).c.valid == v;
    }
  }

  /** set_authority with the corrected split. */
  function WithAuthority(c: Components, authority: Bytes): Update
  {
    ApplyAuthority(c, SplitAuthority(authority))
  }

  // ---------------------------------------------------------------------
  // get_authority, get_iri, is_valid

  /** No field holds ''. The setters store null for '' and never empty a
      non-empty string, so only the path can come out as '' (when dot
      segments take all of it). */
  predicate Consistent(c: Components)
  {
    c.scheme != Some([]) && c.userinfo != Some([]) && c.host != Some([]) &&
    c.query != Some([]) && c.fragment != Some([])
  }

  function AuthorityText(c: Components): Bytes
  {
    Joined(AuthorityParts(c.userinfo, c.host.GetOr([]), PortText(c.port)))
  }

  /** get_authority: userinfo "@", host, ":" port, or null when that is ''. */
  function GetAuthority(c: Components): (r: Option<Bytes>)
    ensures r.Some? ==> r.value != []
    ensures Consistent(c) ==> (r.None? <==> !HasAuthority(c))
  {
    var a := AuthorityText(c);
    if a == [] then None else Some(a)
  }

  /** The groups get_iri writes out: the parse groups of its result. */
  function Groups(c: Components): IriParse.Groups
  {
    IriParse.Groups(c.scheme, GetAuthority(c), c.path.GetOr([]), c.query, c.fragment)
  }

  /** get_iri: scheme ":", "//" authority, path, "?" query, "#" fragment,
      or null when that is ''. */
  function GetIri(c: Components): (r: Option<Bytes>)
    ensures r.Some? ==> r.value != []
    ensures Consistent(c) ==>
              (r.None? <==> c.scheme.None? && !HasAuthority(c) && c.path.GetOr([]) == [] &&
                            c.query.None? && c.fragment.None?)
  {
    var s := IriParse.Compose(Groups(c));
    if s == [] then None else Some(s)
  }

  /** is_valid: array_sum($valid) === count($valid), i.e. every recorded
      setter call succeeded. */
  predicate IsValid(c: Components)
  {
    forall k :: k in c.valid ==> c.valid[k]
  }

  // ---------------------------------------------------------------------
  // The constructor

  /** new IRI($iri): parse, then set scheme, authority, path, query and
      fragment from the five strings, in that order. */
  function Construct(iri: Bytes): Components
  {
    var parts := IriParse.ParseIri(iri);
    var c1 := WithScheme(Blank, Some(parts.scheme)).c;
    var c2 := WithAuthority(c1, parts.authority).c;
    var c3 := WithPath(c2, Some(parts.path)).c;
    var c4 := WithQuery(c3, Some(parts.query)).c;
    WithFragment(c4, Some(parts.fragment)).c
  }

  /** What new IRI('') holds: every field null, every key valid. */
  const Empty := Components(None, None, None, None, None, None, None,
    map[Scheme := true, Userinfo := true, Host := true, Port := true,
        Path := true, Query := true, Fragment := true])

  lemma ConstructEmpty()
    ensures Construct([]) == Empty
  {
    EmptyParsed();
    var c1 := WithScheme(Blank, Some([])).c;
    assert c1 == Blank.(valid := map[Scheme := true]);
    EmptyAuthority(c1);
    var c2 := WithAuthority(c1, []).c;
    var c3 := WithPath(c2, Some([])).c;
    assert c3 == c2.(valid := c2.valid[Path := true]);
    var c4 := WithQuery(c3, Some([])).c;
    assert WithFragment(c4, Some([])).c.valid == Empty.valid;
  }

  lemma EmptyParsed()
    ensures IriParse.ParseIri([]) == IriParse.Parts([], [], [], [], [])
  {
    assert IriParse.Match([]) == Some(IriParse.Groups(None, None, [], None, None));
  }

  /** set_authority('') marks userinfo, host and port valid and leaves
      them null. */
  lemma EmptyAuthority(c: Components)
    requires c.userinfo.None? && c.host.None? && c.port.None?
    ensures WithAuthority(c, []).c == c.(valid := c.valid[Userinfo := true][Host := true][Port := true])
  {
    assert SplitAuthority([]) == AuthorityParts(None, [], None);
  }

  // ---------------------------------------------------------------------
  // absolutize

  /** The path merge of absolutize: a relative path that starts with '/'
      is taken as is; after a base with an authority and no path it gets
      a '/'; otherwise it replaces what follows the last '/' of the base
      path (all of it when there is no '/'). */
  function MergedPath(base: Components, relPath: Bytes): (r: Bytes)
    ensures |relPath| <= |r| && r[|r| - |relPath|..] == relPath
    ensures var prefix := r[..|r| - |relPath|];
            prefix == [] || prefix == DotSegments.Slash ||
            (base.path.Some? && StartsWith(base.path.value, prefix) &&
             prefix[|prefix| - 1] == '/' && '/' !in base.path.value[|prefix|..])
  {
    if relPath != [] && relPath[0] == '/' then
      assert relPath[..0] == [];
      relPath
    else if HasAuthority(base) && base.path.None? then
      assert (DotSegments.Slash + relPath)[..1] == DotSegments.Slash;
      DotSegments.Slash + relPath
    else if base.path.Some? && LastIndexOfChar(base.path.value, '/').Some? then
      var bp := base.path.value;
      var k := LastIndexOfChar(bp, '/').value;
      assert (bp[..k + 1] + relPath)[..k + 1] == bp[..k + 1];
      AfterLastSlash(bp, k);
      bp[..k + 1] + relPath
    else
      assert relPath[..0] == [];
      relPath
  }

  lemma AfterLastSlash(s: Bytes, k: nat)
    requires k < |s| && forall j :: k < j < |s| ==> s[j] != '/'
    ensures '/' !in s[k + 1..]
  {
  }

  /** A new IRI('') given the base's scheme and authority, then the path
      and query as absolutize picks them. */
  function Merge(base: Components, rel: Components): Components
  {
    MergePath(BaseAuthority(base), base, rel)
  }

  /** new IRI('') with the base's scheme, userinfo, host and port set. */
  function BaseAuthority(base: Components): Components
  {
    TakeAuthority(Empty, base)
  }

  /** The base's scheme, userinfo, host and port set on t, in that order. */
  function TakeAuthority(t: Components, base: Components): Components
  {
    var t1 := WithScheme(t, base.scheme).c;
    var t2 := WithUserinfo(t1, base.userinfo).c;
    var t3 := WithHost(t2, base.host).c;
    WithPort(t3, PortText(base.port)).c
  }

  /** The path and query absolutize sets on t4. */
  function MergePath(t4: Components, base: Components, rel: Components): Components
  {
    if rel.path.Some? then
      var t5 := WithPath(t4, Some(MergedPath(base, rel.path.value))).c;
      WithQuery(t5, rel.query).c
    else
      var t5 := WithPath(t4, base.path).c;
      if rel.query.Some? then WithQuery(t5, rel.query).c
      else if base.query.Some? then WithQuery(t5, base.query).c
      else t5
  }

  /** absolutize($base, $relative) on the base's state. */
  function Resolve(base: Components, relative: Bytes): Components
  {
    if relative == [] then base
    else
      var rel := Construct(relative);
      if rel.scheme.Some? || GetIri(base).None? then rel
      else Against(base, rel)
  }

  /** A reference without an authority gets a merged object and keeps
      its own fragment. */
  lemma AgainstMerge(base: Components, rel: Components)
    requires GetAuthority(rel).None?
    ensures Against(base, rel) == WithFragment(Merge(base, rel), rel.fragment).c
  {
  }

  /** A parsed relative reference without scheme against a base that is
      not empty. */
  function Against(base: Components, rel: Components): Components
  {
    var t := if GetAuthority(rel).Some? then WithScheme(rel, base.scheme).c else Merge(base, rel);
    WithFragment(t, rel.fragment).c
  }
}
