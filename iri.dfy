/** The IRI class: seven nullable fields and the $valid record, updated in
    place by the setters. Each method is proved to leave the object in the
    state the matching function of IriComponents computes. */
module Iri {
  import opened Text
  import opened PctEncoding
  import DotSegments
  import IPv6Check
  import IriParse
  import opened IriComponents

  class Iri {
    var scheme: Option<Bytes>
    var userinfo: Option<Bytes>
    var host: Option<Bytes>
    var port: Option<nat>
    var path: Option<Bytes>
    var query: Option<Bytes>
    var fragment: Option<Bytes>
    var valid: map<Setter, bool>

    /** The object's state as a value. */
    function Value(): Components
      reads this
    {
      Components(scheme, userinfo, host, port, path, query, fragment, valid)
    }

    /** new IRI($iri): parse, then run the five setters in order. */
    constructor(iri: Bytes)
      ensures Value() == Construct(iri)
    {
      scheme, userinfo, host, port := None, None, None, None;
      path, query, fragment, valid := None, None, None, map[];
      new;
      var parts := IriParse.ParseIri(iri);
      var ok := SetScheme(Some(parts.scheme));
      ok := SetAuthority(parts.authority);
      ok := SetPath(Some(parts.path));
      ok := SetQuery(Some(parts.query));
      ok := SetFragment(Some(parts.fragment));
    }

    method SetScheme(s: Option<Bytes>) returns (ok: bool)
      modifies this
      ensures Update(Value(), ok) == WithScheme(old(Value()), s)
    {
      if s.None? || s.value == [] {
        scheme := None;
      } else if !ValidScheme(s.value) {
        scheme := None;
        valid := valid[Scheme := false];
        return false;
      } else {
        scheme := Some(Lower(s.value));
      }
      valid := valid[Scheme := true];
      return true;
    }

    /** set_authority: userinfo up to the last '@', then host and port,
        stopping at the first setter that fails. */
    method SetAuthority(authority: Bytes) returns (ok: bool)
      modifies this
      ensures Update(Value(), ok) == WithAuthority(old(Value()), authority)
    {
      var parts := SplitAuthority(authority);
      ok := SetUserinfo(parts.userinfo);
      ok := SetHost(Some(parts.host));
      if ok {
        ok := SetPort(parts.port);
      }
    }

    method SetUserinfo(u: Option<Bytes>) returns (ok: bool)
      modifies this
      ensures Update(Value(), ok) == WithUserinfo(old(Value()), u)
    {
      if u.None? || u.value == [] {
        userinfo := None;
      } else {
        userinfo := Some(Normalized(u.value, UserinfoChars, SameCase));
      }
      valid := valid[Userinfo := true];
      return true;
    }

    method SetHost(h: Option<Bytes>) returns (ok: bool)
      modifies this
      ensures Update(Value(), ok) == WithHost(old(Value()), h)
    {
      if h.None? || h.value == [] {
        host := None;
        valid := valid[Host := true];
        return true;
      } else if Bracketed(h.value) {
        ok := IPv6Check.CheckIPv6(h.value[1..|h.value| - 1]);
        if ok {
          host := h;
          valid := valid[Host := true];
        } else {
          host := None;
          valid := valid[Host := false];
        }
      } else {
        host := Some(Normalized(h.value, HostChars, Lowercase));
        valid := valid[Host := true];
        return true;
      }
    }

    method SetPort(p: Option<Bytes>) returns (ok: bool)
      modifies this
      ensures Update(Value(), ok) == WithPort(old(Value()), p)
    {
      if p.None? || p.value == [] {
        port := None;
        valid := valid[Port := true];
        return true;
      } else if AllDigits(p.value) {
        port := Some(DecimalValue(p.value));
        valid := valid[Port := true];
        return true;
      } else {
        port := None;
        valid := valid[Port := false];
        return false;
      }
    }

    /** set_path, with the "//" check also applied to the path it is
        about to store. */
    method SetPath(p: Option<Bytes>) returns (ok: bool)
      modifies this
      ensures Update(Value(), ok) == WithPath(old(Value()), p)
    {
      if p.None? || p.value == [] {
        path := None;
        valid := valid[Path := true];
        return true;
      }
      var normal := Normalized(p.value, PathChars, SameCase);
      if scheme.Some? {
        normal := DotSegments.RemoveDots(normal);
      }
      if (StartsWith(p.value, TwoSlashes) || StartsWith(normal, TwoSlashes)) &&
         userinfo.None? && host.None? && port.None? {
        path := None;
        valid := valid[Path := false];
        return false;
      }
      path := Some(normal);
      valid := valid[Path := true];
      return true;
    }

    method SetQuery(q: Option<Bytes>) returns (ok: bool)
      modifies this
      ensures Update(Value(), ok) == WithQuery(old(Value()), q)
    {
      if q.None? || q.value == [] {
        query := None;
      } else {
        query := Some(Normalized(q.value, QueryChars, SameCase));
      }
      valid := valid[Query := true];
      return true;
    }

    method SetFragment(f: Option<Bytes>) returns (ok: bool)
      modifies this
      ensures Update(Value(), ok) == WithFragment(old(Value()), f)
    {
      if f.None? || f.value == [] {
        fragment := None;
      } else {
        fragment := Some(Normalized(f.value, QueryChars, SameCase));
      }
      valid := valid[Fragment := true];
      return true;
    }

    /** get_authority, built up piece by piece. */
    method GetAuthority() returns (r: Option<Bytes>)
      ensures r == IriComponents.GetAuthority(Value())
    {
      var authority: Bytes := [];
      if userinfo.Some? {
        authority := authority + userinfo.value + At;
      }
      var a1 := if userinfo.Some? then userinfo.value + At else [];
      assert authority == a1;
      if host.Some? {
        authority := authority + host.value;
      }
      var a2 := a1 + host.GetOr([]);
      assert authority == a2;
      if port.Some? {
        authority := authority + Colon + DecimalString(port.value);
      }
      assert authority == a2 + (if port.Some? then Colon + DecimalString(port.value) else []);
      if authority != [] {
        r := Some(authority);
      } else {
        r := None;
      }
    }

    /** get_iri, built up piece by piece. */
    method GetIri() returns (r: Option<Bytes>)
      ensures r == IriComponents.GetIri(Value())
    {
      var iri: Bytes := [];
      if scheme.Some? {
        iri := iri + IriParse.SchemePart(scheme);
      }
      var s1 := IriParse.SchemePart(scheme);
      assert iri == s1;
      var authority := GetAuthority();
      if authority.Some? {
        iri := iri + IriParse.AuthorityPart(authority);
      }
      var s2 := s1 + IriParse.AuthorityPart(authority);
      assert iri == s2;
      if path.Some? {
        iri := iri + path.value;
      }
      var s3 := s2 + path.GetOr([]);
      assert iri == s3;
      if query.Some? {
        iri := iri + IriParse.QueryPart(query);
      }
      var s4 := s3 + IriParse.QueryPart(query);
      assert iri == s4;
      if fragment.Some? {
        iri := iri + IriParse.FragmentPart(fragment);
      }
      assert iri == s4 + IriParse.FragmentPart(fragment);
      IriParse.ComposeLeft(Groups(Value()));
      if iri != [] {
        r := Some(iri);
      } else {
        r := None;
      }
    }

    predicate IsValid()
      reads this
    {
      IriComponents.IsValid(Value())
    }

    function GetScheme(): Option<Bytes> reads this { scheme }
    function GetUserinfo(): Option<Bytes> reads this { userinfo }
    function GetHost(): Option<Bytes> reads this { host }
    function GetPort(): Option<nat> reads this { port }
    function GetPath(): Option<Bytes> reads this { path }
    function GetQuery(): Option<Bytes> reads this { query }
    function GetFragment(): Option<Bytes> reads this { fragment }

    /** absolutize: '' gives the base object itself; otherwise a new
        object, which is the parsed relative reference itself when that
        has a scheme or an authority or the base is empty. */
    static method Absolutize(base: Iri, relative: Bytes) returns (target: Iri)
      ensures relative == [] ==> target == base
      ensures relative != [] ==> fresh(target)
      ensures target.Value() == Resolve(base.Value(), relative)
    {
      var b := base.Value();
      if relative == [] {
        return base;
      }
      var rel := new Iri(relative);
      var rv := rel.Value();
      if rel.scheme.Some? {
        return rel;
      }
      var baseIri := base.GetIri();
      if baseIri.None? {
        return rel;
      }
      target := rel.ResolveAgainst(base);
    }

    /** The rest of absolutize, on this object as the parsed relative
        reference: it becomes the target when it has an authority, and a
        new object is merged from the base otherwise. */
    method ResolveAgainst(base: Iri) returns (target: Iri)
      requires base != this
      modifies this
      ensures target == this || fresh(target)
      ensures target.Value() == Against(base.Value(), old(Value()))
    {
      var relAuthority := GetAuthority();
      if relAuthority.Some? {
        TakeScheme(base);
        target := this;
      } else {
        target := MergeFrom(base);
      }
    }

    /** A reference with an authority: this object takes the base's
        scheme and keeps its own fragment. */
    method TakeScheme(base: Iri)
      requires base != this && IriComponents.GetAuthority(Value()).Some?
      modifies this
      ensures Value() == Against(base.Value(), old(Value()))
    {
      var fragment := this.fragment;
      var ok := SetScheme(base.scheme);
      ok := SetFragment(fragment);
    }

    /** A reference without an authority: a new object merged from the
        base, with this object's fragment. */
    method MergeFrom(base: Iri) returns (target: Iri)
      requires IriComponents.GetAuthority(Value()).None?
      ensures fresh(target)
      ensures target.Value() == Against(base.Value(), Value())
    {
      AgainstMerge(base.Value(), Value());
      target := MergeOnto(base, this);
      var ok := target.SetFragment(fragment);
    }

    /** The branch of absolutize for a relative reference without scheme
        or authority: a new IRI('') takes the base's scheme and
        authority, then the merged path and the query. */
    static method MergeOnto(base: Iri, rel: Iri) returns (target: Iri)
      ensures fresh(target)
      ensures target.Value() == Merge(base.Value(), rel.Value())
    {
      target := NewFromBase(base);
      target.SetPathAndQuery(base, rel);
    }

    /** new IRI('') given the base's scheme, userinfo, host and port. */
    static method NewFromBase(base: Iri) returns (target: Iri)
      ensures fresh(target)
      ensures target.Value() == BaseAuthority(base.Value())
    {
      target := new Iri([]);
      ConstructEmpty();
      target.TakeAuthorityOf(base);
    }

    /** set_scheme, set_userinfo, set_host and set_port with the base's
        values. */
    method TakeAuthorityOf(base: Iri)
      requires base != this
      modifies this
      ensures Value() == TakeAuthority(old(Value()), base.Value())
    {
      var b := base.Value();
      var ok := SetScheme(b.scheme);
      ok := SetUserinfo(b.userinfo);
      ok := SetHost(b.host);
      ok := SetPort(PortText(b.port));
    }

    /** The merged path and the query, set on this object. */
    method SetPathAndQuery(base: Iri, rel: Iri)
      requires base != this && rel != this
      modifies this
      ensures Value() == MergePath(old(Value()), base.Value(), rel.Value())
    {
      var b := base.Value();
      var r := rel.Value();
      var ok: bool;
      if r.path.Some? {
        var relPath := r.path.value;
        var merged: Bytes;
        if relPath != [] && relPath[0] == '/' {
          merged := relPath;
        } else if (b.userinfo.Some? || b.host.Some? || b.port.Some?) && b.path.None? {
          merged := DotSegments.Slash + relPath;
        } else if b.path.Some? && LastIndexOfChar(b.path.value, '/').Some? {
          var lastSegment := LastIndexOfChar(b.path.value, '/').value;
          merged := b.path.value[..lastSegment + 1] + relPath;
        } else {
          merged := relPath;
        }
        assert merged == MergedPath(b, relPath);
        ok := SetPath(Some(merged));
        ok := SetQuery(r.query);
      } else {
        ok := SetPath(b.path);
        if r.query.Some? {
          ok := SetQuery(r.query);
        } else if b.query.Some? {
          ok := SetQuery(b.query);
        }
      }
    }
  }
}
