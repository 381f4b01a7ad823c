/** parse_iri: the split of section 3 of RFC 3986, by the regular
    expression of its Appendix B,
      ^(([^:/?#]+):)?(//([^/?#]*))?([^?#]*)(\?([^#]*))?(#(.*))?$
    read with PCRE's rules: '.' stops at a line feed and '$' also matches
    before a final line feed. */
module IriParse {
  import opened Text

  /** The five strings parse_iri returns; a group that did not take part
      in the match is ''. */
  datatype Parts = Parts(scheme: Bytes, authority: Bytes, path: Bytes, query: Bytes, fragment: Bytes)

  /** The regular expression's groups 2, 4, 5, 7 and 9, None when the
      group did not take part. */
  datatype Groups = Groups(scheme: Option<Bytes>, authority: Option<Bytes>, path: Bytes,
                           query: Option<Bytes>, fragment: Option<Bytes>)

  /** The bytes each character class of the pattern stops at. */
  datatype Class = SchemeClass | AuthorityClass | PathClass | QueryClass

  predicate Stops(k: Class, c: Byte)
  {
    match k
    case SchemeClass => c == ':' || c == '/' || c == '?' || c == '#'
    case AuthorityClass => c == '/' || c == '?' || c == '#'
    case PathClass => c == '?' || c == '#'
    case QueryClass => c == '#'
  }

  predicate NoStop(k: Class, s: Bytes)
  {
    forall i :: 0 <= i < |s| ==> !Stops(k, s[i])
  }

  /** Where a greedy run of the class [^...] starting at from ends. */
  function Until(s: Bytes, k: Class, from: nat): (n: nat)
    requires from <= |s|
    ensures from <= n <= |s|
    ensures forall i :: from <= i < n ==> !Stops(k, s[i])
    ensures n < |s| ==> Stops(k, s[n])
    decreases |s| - from
  {
    if from == |s| || Stops(k, s[from]) then from else Until(s, k, from + 1)
  }

  /** Until is the first stopping byte at or after from. */
  lemma {:induction false} UntilAt(s: Bytes, k: Class, from: nat, n: nat)
    requires from <= n <= |s|
    requires forall i :: from <= i < n ==> !Stops(k, s[i])
    requires n < |s| ==> Stops(k, s[n])
    ensures Until(s, k, from) == n
    decreases n - from
  {
    if from < n {
      UntilAt(s, k, from + 1, n);
    }
  }

  // ---------------------------------------------------------------------
  // The match, group by group

  function SchemePart(o: Option<Bytes>): Bytes
  {
    if o.Some? then o.value + ":" else []
  }

  function AuthorityPart(o: Option<Bytes>): Bytes
  {
    if o.Some? then "//" + o.value else []
  }

  function QueryPart(o: Option<Bytes>): Bytes
  {
    if o.Some? then "?" + o.value else []
  }

  function FragmentPart(o: Option<Bytes>): Bytes
  {
    if o.Some? then "#" + o.value else []
  }

  /** ([^:/?#]+): at the start. */
  function SchemeGroup(s: Bytes): (r: Option<Bytes>)
    ensures r.Some? ==> r.value != [] && NoStop(SchemeClass, r.value)
  {
    var i := Until(s, SchemeClass, 0);
    if 1 <= i < |s| && s[i] == ':' then Some(s[..i]) else None
  }

  /** The text after the scheme group. */
  function AfterScheme(s: Bytes): (r: Bytes)
    ensures SchemePart(SchemeGroup(s)) + r == s
  {
    var g := SchemeGroup(s);
    if g.Some? then
      assert s == s[..|g.value|] + [s[|g.value|]] + s[|g.value| + 1..];
      s[|g.value| + 1..]
    else s
  }

  /** (//([^/?#]*)) at the start of what follows the scheme. */
  function AuthorityGroup(s: Bytes): (r: Option<Bytes>)
    ensures r.Some? ==> NoStop(AuthorityClass, r.value)
  {
    if |s| >= 2 && s[0] == '/' && s[1] == '/' then Some(s[2..Until(s, AuthorityClass, 2)])
    else None
  }

  /** The text after the authority group: empty or from a '/', '?' or '#'. */
  function AfterAuthority(s: Bytes): (r: Bytes)
    ensures AuthorityPart(AuthorityGroup(s)) + r == s
    ensures AuthorityGroup(s).Some? ==> r == [] || Stops(AuthorityClass, r[0])
  {
    if |s| >= 2 && s[0] == '/' && s[1] == '/' then
      var j := Until(s, AuthorityClass, 2);
      assert s == s[..2] + s[2..j] + s[j..];
      s[j..]
    else s
  }

  /** ([^?#]*). */
  function PathGroup(s: Bytes): (r: Bytes)
    ensures NoStop(PathClass, r)
  {
    s[..Until(s, PathClass, 0)]
  }

  /** The text after the path: empty or from a '?' or '#'. */
  function AfterPath(s: Bytes): (r: Bytes)
    ensures PathGroup(s) + r == s
    ensures r == [] || Stops(PathClass, r[0])
  {
    s[Until(s, PathClass, 0)..]
  }

  /** (\?([^#]*)) at the start of what follows the path. */
  function QueryGroup(s: Bytes): (r: Option<Bytes>)
    ensures r.Some? ==> '#' !in r.value
  {
    if s != [] && s[0] == '?' then
      var j := Until(s, QueryClass, 1);
      assert forall i :: 1 <= i < j ==> s[i] != '#';
      Some(s[1..j])
    else None
  }

  /** The text after the query: empty or from a '#', when what followed
      the path was. */
  function AfterQuery(s: Bytes): (r: Bytes)
    ensures QueryPart(QueryGroup(s)) + r == s
    ensures (s == [] || Stops(PathClass, s[0])) ==> r == [] || r[0] == '#'
  {
    if s != [] && s[0] == '?' then
      var j := Until(s, QueryClass, 1);
      assert s == s[..1] + s[1..j] + s[j..];
      assert j < |s| ==> s[j] == '#';
      s[j..]
    else s
  }

  /** (#(.*))?$ on the text after the query: nothing, or '#' and the rest
      of the line, which must run to the end or to a final line feed.
      None when it cannot, and the whole match then fails. */
  function FragmentGroup(f: Bytes): (r: Option<Option<Bytes>>)
    ensures r.Some? && r.value.Some? ==> '\n' !in r.value.value
    ensures (f == [] || f[0] == '#') && '\n' !in f ==> r.Some? && FragmentPart(r.value) == f
  {
    if f == [] then Some(None)
    else
      var t := f[1..];
      if '\n' !in t then
        assert f == [f[0]] + t;
        Some(Some(t))
      else if t[|t| - 1] == '\n' && '\n' !in t[..|t| - 1] then Some(Some(t[..|t| - 1]))
      else None
  }

  /** What the groups take, from the left; None when the pattern does not
      match. */
  function Match(s: Bytes): (r: Option<Groups>)
  {
    var s1 := AfterScheme(s);
    var s2 := AfterAuthority(s1);
    var s3 := AfterPath(s2);
    var s4 := AfterQuery(s3);
    match FragmentGroup(s4)
    case None => None
    case Some(fragment) => Some(Groups(SchemeGroup(s), AuthorityGroup(s1), PathGroup(s2), QueryGroup(s3), fragment))
  }

  function OrEmpty(o: Option<Bytes>): Bytes
  {
    if o.Some? then o.value else []
  }

  /** parse_iri($iri): the groups, '' for those that did not take part,
      and five '' when the pattern does not match. */
  function ParseIri(s: Bytes): (r: Parts)
  {
    match Match(s)
    case None => Parts([], [], [], [], [])
    case Some(g) => Parts(OrEmpty(g.scheme), OrEmpty(g.authority), g.path, OrEmpty(g.query), OrEmpty(g.fragment))
  }

  // ---------------------------------------------------------------------
  // The groups put back together

  function FromQuery(g: Groups): Bytes { QueryPart(g.query) + FragmentPart(g.fragment) }
  function FromPath(g: Groups): Bytes { g.path + FromQuery(g) }
  function FromAuthority(g: Groups): Bytes { AuthorityPart(g.authority) + FromPath(g) }

  /** The reference the groups spell, as section 5.3 of RFC 3986 recomposes it. */
  function Compose(g: Groups): Bytes { SchemePart(g.scheme) + FromAuthority(g) }

  /** Compose, appending left to right as get_iri does. */
  lemma ComposeLeft(g: Groups)
    ensures Compose(g) == SchemePart(g.scheme) + AuthorityPart(g.authority) + g.path +
                          QueryPart(g.query) + FragmentPart(g.fragment)
  {
  }

  /** Without line feeds the pattern always matches, and the groups spell
      the input back. */
  lemma ComposeMatch(s: Bytes)
    requires '\n' !in s
    ensures Match(s).Some? && Compose(Match(s).value) == s
  {
    var s1 := AfterScheme(s);
    var s2 := AfterAuthority(s1);
    var s3 := AfterPath(s2);
    var s4 := AfterQuery(s3);
    assert '\n' !in s4 by {
      assert s == SchemePart(SchemeGroup(s)) + (AuthorityPart(AuthorityGroup(s1)) +
             (PathGroup(s2) + (QueryPart(QueryGroup(s3)) + s4)));
    }
  }

  // ---------------------------------------------------------------------
  // Which groups the pattern can produce

  /** A path with neither scheme nor authority before it whose first
      segment holds a ':' would be read as a scheme (section 4.2 of
      RFC 3986). */
  predicate LooksLikeScheme(path: Bytes)
  {
    var i := Until(path, SchemeClass, 0);
    1 <= i < |path| && path[i] == ':'
  }

  predicate StartsWithTwoSlashes(s: Bytes)
  {
    |s| >= 2 && s[0] == '/' && s[1] == '/'
  }

  /** The groups a line-feed-free match yields: each within its character
      class, a path that starts with '/' (or is empty) after an
      authority, no "//" path without one, and no scheme-like path when
      both are absent. */
  predicate WellShaped(g: Groups)
  {
    (g.scheme.Some? ==> g.scheme.value != [] && NoStop(SchemeClass, g.scheme.value)) &&
    (g.authority.Some? ==> NoStop(AuthorityClass, g.authority.value)) &&
    NoStop(PathClass, g.path) &&
    (g.authority.Some? ==> g.path == [] || g.path[0] == '/') &&
    (g.authority.None? ==> !StartsWithTwoSlashes(g.path)) &&
    (g.scheme.None? && g.authority.None? ==> !LooksLikeScheme(g.path)) &&
    (g.query.Some? ==> '#' !in g.query.value) &&
    (g.fragment.Some? ==> '\n' !in g.fragment.value)
  }

  /** Every match is well shaped. */
  lemma MatchShaped(s: Bytes)
    requires Match(s).Some?
    ensures WellShaped(Match(s).value)
  {
    var s1 := AfterScheme(s);
    if AuthorityGroup(s1).Some? {
      PathAfterAuthority(s1);
    } else {
      PathWithoutAuthority(s1);
      if SchemeGroup(s).None? {
        PathWithoutScheme(s);
      }
    }
  }

  lemma PathAfterAuthority(s1: Bytes)
    requires AuthorityGroup(s1).Some?
    ensures var p := PathGroup(AfterAuthority(s1)); p == [] || p[0] == '/'
  {
    var s2 := AfterAuthority(s1);
    var p := PathGroup(s2);
    assert p + AfterPath(s2) == s2;
    if p != [] {
      assert p[0] == s2[0];
    }
  }

  lemma PathWithoutAuthority(s1: Bytes)
    requires AuthorityGroup(s1).None?
    ensures AfterAuthority(s1) == s1 && !StartsWithTwoSlashes(PathGroup(s1))
  {
    var p := PathGroup(s1);
    assert p + AfterPath(s1) == s1;
    if |p| >= 2 {
      assert s1[0] == p[0] && s1[1] == p[1];
    }
  }

  lemma PathWithoutScheme(s: Bytes)
    requires SchemeGroup(s).None?
    ensures AfterScheme(s) == s && !LooksLikeScheme(PathGroup(s))
  {
    var p := PathGroup(s);
    assert p + AfterPath(s) == s;
    if LooksLikeScheme(p) {
      var i := Until(p, SchemeClass, 0);
      UntilAt(s, SchemeClass, 0, i);
    }
  }

  /** The scheme is read back from the composed text. */
  lemma SchemeBack(g: Groups)
    requires WellShaped(g)
    ensures SchemeGroup(Compose(g)) == g.scheme
    ensures AfterScheme(Compose(g)) == FromAuthority(g)
  {
    var s := Compose(g);
    if g.scheme.Some? {
      var x := g.scheme.value;
      assert s[|x|] == ':';
      UntilAt(s, SchemeClass, 0, |x|);
      assert s[..|x|] == x;
    } else if g.authority.Some? {
      assert s[0] == '/';
      UntilAt(s, SchemeClass, 0, 0);
    } else {
      SchemeAbsent(g);
    }
    Cancel(SchemePart(g.scheme), AfterScheme(s), FromAuthority(g));
  }

  lemma SchemeAbsent(g: Groups)
    requires WellShaped(g) && g.scheme.None? && g.authority.None?
    ensures SchemeGroup(Compose(g)) == None
  {
    var s := Compose(g);
    var n := Until(g.path, SchemeClass, 0);
    var q := FromQuery(g);
    assert s == g.path + q;
    assert q != [] ==> q[0] == '?' || q[0] == '#';
    if n == |g.path| && n < |s| {
      assert s[n] == q[0];
    }
    UntilAt(s, SchemeClass, 0, n);
  }

  lemma Cancel(a: Bytes, x: Bytes, y: Bytes)
    requires a + x == a + y
    ensures x == y
  {
    assert x == (a + x)[|a|..];
  }

  /** The authority is read back from what follows the scheme. */
  lemma AuthorityBack(g: Groups)
    requires WellShaped(g)
    ensures AuthorityGroup(FromAuthority(g)) == g.authority
    ensures AfterAuthority(FromAuthority(g)) == FromPath(g)
  {
    var t := FromAuthority(g);
    if g.authority.Some? {
      AuthorityPresent(g);
    } else {
      AuthorityAbsent(g);
    }
    Cancel(AuthorityPart(g.authority), AfterAuthority(t), FromPath(g));
  }

  lemma AuthorityPresent(g: Groups)
    requires WellShaped(g) && g.authority.Some?
    ensures AuthorityGroup(FromAuthority(g)) == g.authority
  {
    var t := FromAuthority(g);
    var q := FromQuery(g);
    var a := g.authority.value;
    assert q != [] ==> q[0] == '?' || q[0] == '#';
    assert t == "//" + a + (g.path + q);
    if 2 + |a| < |t| {
      if g.path == [] {
        assert t[2 + |a|] == q[0];
      } else {
        assert t[2 + |a|] == g.path[0];
      }
    }
    UntilAt(t, AuthorityClass, 2, 2 + |a|);
    assert t[2..2 + |a|] == a;
  }

  lemma AuthorityAbsent(g: Groups)
    requires WellShaped(g) && g.authority.None?
    ensures AuthorityGroup(FromAuthority(g)) == None
  {
    var t := FromAuthority(g);
    var q := FromQuery(g);
    assert q != [] ==> q[0] == '?' || q[0] == '#';
    assert t == g.path + q;
    if |g.path| == 1 && q != [] {
      assert t[1] == q[0];
    } else if g.path == [] && q != [] {
      assert t[0] == q[0];
    }
  }

  /** The path is read back from what follows the authority. */
  lemma PathBack(g: Groups)
    requires WellShaped(g)
    ensures PathGroup(FromPath(g)) == g.path && AfterPath(FromPath(g)) == FromQuery(g)
  {
    var t := FromPath(g);
    var q := FromQuery(g);
    assert q != [] ==> q[0] == '?' || q[0] == '#';
    if |g.path| < |t| {
      assert t[|g.path|] == q[0];
    }
    UntilAt(t, PathClass, 0, |g.path|);
    assert t[..|g.path|] == g.path;
  }

  /** The query and the fragment are read back from what follows the path. */
  lemma QueryBack(g: Groups)
    requires WellShaped(g)
    ensures QueryGroup(FromQuery(g)) == g.query
    ensures AfterQuery(FromQuery(g)) == FragmentPart(g.fragment)
    ensures FragmentGroup(FragmentPart(g.fragment)) == Some(g.fragment)
  {
    var t := FromQuery(g);
    var f := FragmentPart(g.fragment);
    if g.query.Some? {
      var q := g.query.value;
      assert t == "?" + q + f;
      if 1 + |q| < |t| {
        assert t[1 + |q|] == f[0];
      }
      UntilAt(t, QueryClass, 1, 1 + |q|);
      assert t[1..1 + |q|] == q;
      assert t[1 + |q|..] == f;
    }
    if g.fragment.Some? {
      assert f[1..] == g.fragment.value;
    }
  }

  /** Well-shaped groups are exactly what the pattern finds in the text
      they spell: with ComposeMatch, Match and Compose are inverse
      bijections between line-feed-free text and well-shaped groups. */
  lemma MatchCompose(g: Groups)
    requires WellShaped(g)
    ensures Match(Compose(g)) == Some(g)
  {
    SchemeBack(g);
    AuthorityBack(g);
    PathBack(g);
    QueryBack(g);
  }
}
