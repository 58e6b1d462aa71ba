/** The URL of a simple link: the stored target with the visit's path suffix and query put to it,
    and how much of the target that can change. */
module SimpleTarget {
  import opened Common
  import opened Text
  import opened TemplateDomain
  import opened LinkStore
  import R = Redirect

  /** How the URL library reads and writes a path, and writes an authority. */
  datatype Codec = Codec(decode: string -> string, encode: string -> string, authority: string -> string)

  /** What is needed of it: paths keep their leading slash, a written path has no delimiter of the
      query or the fragment, a written authority has none at all and still names its host. */
  ghost predicate Faithful(lib: Library, codec: Codec) {
    && (forall p: string :: codec.decode(p) == "" || (p != "" && (p[0] == '/' ==> codec.decode(p)[0] == '/')))
    && (forall p: string :: codec.encode(p) == "" || (p != "" && (p[0] == '/' ==> codec.encode(p)[0] == '/')))
    && (forall a: string :: lib.host(a).Some? ==>
          Undelimited(codec.authority(a)) && lib.host(codec.authority(a)) == lib.host(a))
  }

  function TrimRightSlash(s: string): string {
    if s != "" && s[|s| - 1] == '/' then TrimRightSlash(s[..|s| - 1]) else s
  }

  function TrimLeftSlash(s: string): string { if s != "" && s[0] == '/' then TrimLeftSlash(s[1..]) else s }

  function WithSuffix(path: string, suffix: string): string {
    if suffix == "" then path else TrimRightSlash(path) + ['/'] + TrimLeftSlash(suffix)
  }

  function WithQuery(stored: string, query: string): string {
    if query == "" then stored else if stored == "" then query else stored + "&" + query
  }

  /** Query and fragment as they are written; a bare question mark of the target stays. */
  function Tail(query: string, bare: bool, fragment: string): string {
    (if query != "" || bare then "?" + query else "") + if fragment != "" then "#" + fragment else ""
  }

  function Write(codec: Codec, scheme: string, authority: string, path: string, tail: string): string {
    ToLower(scheme) + "://" + codec.authority(authority) + (codec.encode(path) + tail)
  }

  function ResolveSimple(lib: Library, codec: Codec, target: string, suffix: string, query: string): Option<string> {
    if suffix == "" && query == "" then Some(target)
    else if Host(lib, target).None? || Host(lib, target).value == "" || Split(target).value.scheme == "" then None
    else
      var u := Split(target).value;
      match u.authority
      case None => None
      case Some(a) =>
        Some(Write(codec, u.scheme, a, WithSuffix(codec.decode(u.path), suffix),
                   Tail(WithQuery(u.query, query), Contains(Before(target, '#'), '?'), u.fragment)))
  }

  // ---- scheme and authority ------------------------------------------------------------------------

  lemma SchemeIsOne(s: string)
    requires Split(s).Some? && Split(s).value.scheme != ""
    ensures Scheme(Split(s).value.scheme)
  {
    var t := Before(s, '#');
    SchemeShape(t, 0);
    assert t != "" && Letter(t[0]);
    assert Split(s).value.scheme[0] == t[0];
  }

  lemma SchemeLower(sc: string)
    requires Scheme(sc)
    ensures Scheme(ToLower(sc))
  {
    forall k | 0 <= k < |sc| ensures SchemeChar(ToLower(sc)[k]) { LowerAt(sc, k); }
    LowerAt(sc, 0);
  }

  lemma {:induction false} TrimRightSlashPrefix(s: string)
    ensures |TrimRightSlash(s)| <= |s| && TrimRightSlash(s) == s[..|TrimRightSlash(s)|]
  {
    if s != "" && s[|s| - 1] == '/' { TrimRightSlashPrefix(s[..|s| - 1]); }
  }

  /** Whatever the suffix, the path begins with a slash or is empty, as an authority requires. */
  lemma PathBegins(path: string, suffix: string)
    requires path == "" || path[0] == '/'
    ensures WithSuffix(path, suffix) == "" || WithSuffix(path, suffix)[0] == '/'
  {
    TrimRightSlashPrefix(path);
  }

  lemma RestBegins(lib: Library, codec: Codec, path: string, query: string, bare: bool, fragment: string)
    requires Faithful(lib, codec) && (path == "" || path[0] == '/')
    ensures var rest := codec.encode(path) + Tail(query, bare, fragment); rest == "" || Delimiter(rest[0])
  {
    var e := codec.encode(path);
    if e != "" { assert e[0] == '/' && (e + Tail(query, bare, fragment))[0] == e[0]; }
    else { assert e + Tail(query, bare, fragment) == Tail(query, bare, fragment); }
  }

  lemma WriteIsWritten(codec: Codec, scheme: string, authority: string, path: string, tail: string)
    requires Scheme(scheme) && Undelimited(codec.authority(authority))
    requires var rest := codec.encode(path) + tail; rest == "" || Delimiter(rest[0])
    ensures Written(Write(codec, scheme, authority, path, tail), ToLower(scheme), codec.authority(authority))
  {
    SchemeLower(scheme);
    Concatenated(ToLower(scheme), codec.authority(authority), codec.encode(path) + tail);
  }

  lemma Concatenated(sc: string, au: string, rest: string)
    requires Scheme(sc) && Undelimited(au) && (rest == "" || Delimiter(rest[0]))
    ensures Written(sc + "://" + au + rest, sc, au)
  {
    var t := sc + "://" + au + rest;
    assert t[|sc|] == ':' && t[|sc| + 1] == '/' && t[|sc| + 2] == '/';
    forall k | 0 <= k < |au| ensures t[|sc| + 3 + k] == au[k] {}
  }

  /** A target put to anything at all is written out from its own scheme and authority. */
  lemma Rewritten(lib: Library, codec: Codec, target: string, suffix: string, query: string)
    requires Faithful(lib, codec) && ResolveSimple(lib, codec, target, suffix, query).Some?
    requires suffix != "" || query != ""
    ensures Split(target).Some? && Split(target).value.authority.Some?
    ensures Written(ResolveSimple(lib, codec, target, suffix, query).value,
                    ToLower(Split(target).value.scheme), codec.authority(Split(target).value.authority.value))
  {
    var u := Split(target).value;
    var a := u.authority.value;
    var path := WithSuffix(codec.decode(u.path), suffix);
    var query', bare := WithQuery(u.query, query), Contains(Before(target, '#'), '?');
    SchemeIsOne(target);
    assert u.path == "" || u.path[0] == '/';
    PathBegins(codec.decode(u.path), suffix);
    RestBegins(lib, codec, path, query', bare, u.fragment);
    WriteIsWritten(codec, u.scheme, a, path, Tail(query', bare, u.fragment));
  }

  lemma HostRewritten(lib: Library, codec: Codec, target: string, url: string)
    requires Faithful(lib, codec) && Host(lib, target).Some? && Split(target).value.authority.Some?
    requires Split(url).Some? && Split(url).value.authority == Some(codec.authority(Split(target).value.authority.value))
    ensures lib.fine(url) ==> Host(lib, url) == Host(lib, target)
  {
  }

  /** For every path suffix and every query the visit goes to the stored target's site: same scheme,
      and an authority with the same host. */
  lemma SiteIsKept(lib: Library, codec: Codec, target: string, suffix: string, query: string)
    requires Faithful(lib, codec) && ResolveSimple(lib, codec, target, suffix, query).Some?
    ensures var url := ResolveSimple(lib, codec, target, suffix, query).value;
            url == target ||
            (&& Split(target).Some? && Split(target).value.authority.Some? && Split(url).Some?
             && Split(url).value.scheme == ToLower(Split(target).value.scheme)
             && Split(url).value.authority == Some(codec.authority(Split(target).value.authority.value))
             && (lib.fine(url) ==> Host(lib, url) == Host(lib, target)))
  {
    if suffix != "" || query != "" {
      Rewritten(lib, codec, target, suffix, query);
      var url, u := ResolveSimple(lib, codec, target, suffix, query).value, Split(target).value;
      UrlReads(url, ToLower(u.scheme), codec.authority(u.authority.value));
      HostRewritten(lib, codec, target, url);
    }
  }

  /** So a visit that opens a simple link, directly or through an alias, ends on that link's site. */
  lemma VisitsStayOnSite(lib: Library, codec: Codec, rows: Rows, engine: R.Engine, v: R.Visit)
    requires Faithful(lib, codec) && Indexed(rows)
    requires forall t, w: R.Visit :: engine.simple(t, w) == ResolveSimple(lib, codec, t, w.suffix, w.query)
    requires R.Serve(rows, engine, v).0.Redirected? && !R.Opened(rows, engine, v).value.linkType.Advanced?
    ensures var url, target := R.Serve(rows, engine, v).0.url, R.Opened(rows, engine, v).value.target;
            url == target || (Split(url).Some? && (lib.fine(url) ==> Host(lib, url) == Host(lib, target)))
  {
    R.OpenedLinksRedirect(rows, engine, v);
    var target := R.Opened(rows, engine, v).value.target;
    assert engine.simple(target, v) == ResolveSimple(lib, codec, target, v.suffix, v.query);
    SiteIsKept(lib, codec, target, v.suffix, v.query);
  }

  // ---- every part of the URL, read back ------------------------------------------------------------

  /** And that the library, besides, reads every path it writes, and escapes the delimiters in it. */
  ghost predicate Lossless(codec: Codec) {
    && (forall p: string :: codec.decode(codec.encode(p)) == p)
    && (forall p: string :: !Contains(codec.encode(p), '?') && !Contains(codec.encode(p), '#'))
  }

  lemma CutAt(a: string, c: char, b: string)
    requires !Contains(a, c)
    ensures Before(a + [c] + b, c) == a && After(a + [c] + b, c) == b
  {
    var s := a + [c] + b;
    assert s[|a|] == c && forall k :: 0 <= k < |a| ==> s[k] == a[k];
    assert IndexOf(s, c) == |a| && s[..|a|] == a && s[|a| + 1..] == b;
  }

  lemma NoCut(a: string, c: char)
    requires !Contains(a, c)
    ensures IndexOf(a, c) == |a| && Before(a, c) == a && After(a, c) == ""
  {
    assert a[..|a|] == a;
  }

  /** A part that may be missing, behind its delimiter. */
  function Behind(c: char, there: bool, b: string): string { if there then [c] + b else "" }

  lemma CutBehind(a: string, c: char, there: bool, b: string)
    requires !Contains(a, c) && (!there ==> b == "")
    ensures Before(a + Behind(c, there, b), c) == a && After(a + Behind(c, there, b), c) == b
  {
    if there {
      assert a + ([c] + b) == a + [c] + b;
      CutAt(a, c, b);
    } else {
      assert a + "" == a;
      NoCut(a, c);
    }
  }

  lemma ContainsConcat(a: string, b: string, c: char)
    ensures Contains(a + b, c) <==> Contains(a, c) || Contains(b, c)
  {
    if k :| 0 <= k < |a| && a[k] == c { assert (a + b)[k] == c; }
    if k :| 0 <= k < |b| && b[k] == c { assert (a + b)[|a| + k] == c; }
  }

  lemma UndelimitedHasNone(a: string)
    requires Undelimited(a)
    ensures !Contains(a, '?') && !Contains(a, '#') && !Contains(a, '/')
  {
  }

  lemma SchemeHasNone(sc: string)
    requires Scheme(sc)
    ensures !Contains(sc, '#')
  {
  }

  /** Behind the scheme: authority and path, then the query. */
  lemma RestReads(au: string, path: string, asked: bool, query: string)
    requires Undelimited(au) && !Contains(path, '?') && (path == "" || path[0] == '/') && (!asked ==> query == "")
    ensures var after := "//" + au + path + Behind('?', asked, query);
            && Before(after, '?') == "//" + au + path && After(after, '?') == query
            && var a := ("//" + au + path)[2..]; Before(a, '/') == au && a[IndexOf(a, '/')..] == path
  {
    var front := "//" + au + path;
    UndelimitedHasNone(au);
    ContainsConcat("//", au, '?');
    ContainsConcat("//" + au, path, '?');
    CutBehind(front, '?', asked, query);
    assert front[2..] == au + path;
    if path == "" {
      assert au + path == au;
      NoCut(au, '/');
    } else {
      assert au + path == au + ['/'] + path[1..];
      CutAt(au, '/', path[1..]);
      assert IndexOf(au + path, '/') == |au|;
    }
  }

  lemma HashReads(sc: string, au: string, path: string, asked: bool, query: string, fragment: string)
    requires Scheme(sc) && Undelimited(au) && !Contains(path, '#') && !Contains(query, '#') && (!asked ==> query == "")
    ensures var front := sc + "://" + au + path + Behind('?', asked, query);
            var t := front + Behind('#', fragment != "", fragment);
            Before(t, '#') == front && After(t, '#') == fragment
  {
    UndelimitedHasNone(au);
    SchemeHasNone(sc);
    ContainsConcat(sc, "://", '#');
    ContainsConcat(sc + "://", au, '#');
    ContainsConcat(sc + "://" + au, path, '#');
    if asked { ContainsConcat(['?'], query, '#'); }
    ContainsConcat(sc + "://" + au + path, Behind('?', asked, query), '#');
    CutBehind(sc + "://" + au + path + Behind('?', asked, query), '#', fragment != "", fragment);
  }

  /** A URL written from parts without delimiters of their own splits into these parts. */
  lemma PartsRead(sc: string, au: string, path: string, asked: bool, query: string, fragment: string)
    requires Scheme(sc) && Undelimited(au) && (path == "" || path[0] == '/') && (!asked ==> query == "")
    requires !Contains(path, '?') && !Contains(path, '#') && !Contains(query, '#')
    ensures var t := sc + "://" + au + path + Behind('?', asked, query) + Behind('#', fragment != "", fragment);
            Split(t) == Some(Url(sc, Some(au), path, query, fragment))
  {
    var front := sc + "://" + au + path + Behind('?', asked, query);
    var t := front + Behind('#', fragment != "", fragment);
    HashReads(sc, au, path, asked, query, fragment);
    RestReads(au, path, asked, query);
    FrontIs(sc, au, path, Behind('?', asked, query));
    FrontReads(front, sc, "//" + au + path + Behind('?', asked, query));
    SplitIs(t, front, sc, "//" + au + path + Behind('?', asked, query), "//" + au + path);
  }

  lemma FrontIs(sc: string, au: string, path: string, q: string)
    ensures var after := "//" + au + path + q; "//" <= after && sc + "://" + au + path + q == sc + "://" + after[2..]
    ensures "//" <= "//" + au + path
  {
    var after := "//" + au + path + q;
    assert after[2..] == au + path + q;
  }

  lemma SplitIs(t: string, front: string, sc: string, after: string, rest: string)
    requires Before(t, '#') == front && GetScheme(front, 0) == Some((sc, after)) && sc != ""
    requires Before(after, '?') == rest && "//" <= rest
    ensures Split(t) == Some(Url(sc, Some(Before(rest[2..], '/')), rest[2..][IndexOf(rest[2..], '/')..],
                                 After(after, '?'), After(t, '#')))
  {
  }

  lemma FrontReads(front: string, sc: string, after: string)
    requires Scheme(sc) && "//" <= after && front == sc + "://" + after[2..]
    ensures GetScheme(front, 0) == Some((sc, after))
  {
    var n := |sc|;
    assert front[n] == ':' && forall k :: 0 <= k < n ==> front[k] == sc[k];
    SchemeReads(front, n, 0);
    assert front[..n] == sc && front[n + 1..] == after;
  }

  lemma TailIsBehind(query: string, bare: bool, fragment: string)
    ensures Tail(query, bare, fragment) == Behind('?', query != "" || bare, query) + Behind('#', fragment != "", fragment)
  {
  }

  lemma SplitHasNoHash(s: string)
    requires Split(s).Some?
    ensures !Contains(Split(s).value.query, '#')
  {
    var t := Before(s, '#');
    var after := GetScheme(t, 0).value.1;
    SchemeShape(t, 0);
    forall k | 0 <= k < |t| ensures t[k] != '#' { assert t[k] == s[k]; }
    forall k | 0 <= k < |after| ensures after[k] != '#' { assert after[k] == t[|t| - |after| + k]; }
    forall k | 0 <= k < |After(after, '?')| ensures After(after, '?')[k] != '#' {
      assert After(after, '?')[k] == after[IndexOf(after, '?') + 1 + k];
    }
  }

  lemma WithQueryHasNoHash(stored: string, query: string)
    requires !Contains(stored, '#') && !Contains(query, '#')
    ensures !Contains(WithQuery(stored, query), '#')
  {
    ContainsConcat(stored, "&", '#');
    ContainsConcat(stored + "&", query, '#');
  }

  lemma UrlIsParts(codec: Codec, scheme: string, authority: string, path: string, query: string, bare: bool, fragment: string)
    ensures Write(codec, scheme, authority, path, Tail(query, bare, fragment)) ==
              ToLower(scheme) + "://" + codec.authority(authority) + codec.encode(path)
              + Behind('?', query != "" || bare, query) + Behind('#', fragment != "", fragment)
  {
    TailIsBehind(query, bare, fragment);
  }

  lemma EncodedBegins(lib: Library, codec: Codec, path: string)
    requires Faithful(lib, codec) && (path == "" || path[0] == '/')
    ensures codec.encode(path) == "" || codec.encode(path)[0] == '/'
  {
  }

  lemma Reread(lib: Library, codec: Codec, target: string, suffix: string, query: string)
    requires Faithful(lib, codec) && Lossless(codec) && !Contains(query, '#') && (suffix != "" || query != "")
    requires ResolveSimple(lib, codec, target, suffix, query).Some?
    ensures var u := Split(target).value;
            Split(ResolveSimple(lib, codec, target, suffix, query).value) ==
              Some(Url(ToLower(u.scheme), Some(codec.authority(u.authority.value)),
                       codec.encode(WithSuffix(codec.decode(u.path), suffix)), WithQuery(u.query, query), u.fragment))
  {
    var u := Split(target).value;
    var a := u.authority.value;
    var path, query' := WithSuffix(codec.decode(u.path), suffix), WithQuery(u.query, query);
    var bare := Contains(Before(target, '#'), '?');
    SchemeIsOne(target);
    SchemeLower(u.scheme);
    assert u.path == "" || u.path[0] == '/';
    PathBegins(codec.decode(u.path), suffix);
    EncodedBegins(lib, codec, path);
    SplitHasNoHash(target);
    WithQueryHasNoHash(u.query, query);
    UrlIsParts(codec, u.scheme, a, path, query', bare, u.fragment);
    PartsRead(ToLower(u.scheme), codec.authority(a), codec.encode(path), query' != "" || bare, query', u.fragment);
  }

  /** p without its slashes at the end, and behind those at its start. */
  lemma {:induction false} TrimRightSlashExactly(p: string)
    ensures var t := TrimRightSlash(p);
            && |t| <= |p| && t == p[..|t|] && (t != "" ==> t[|t| - 1] != '/') && forall k :: |t| <= k < |p| ==> p[k] == '/'
  {
    if p != "" && p[|p| - 1] == '/' { TrimRightSlashExactly(p[..|p| - 1]); }
  }

  lemma {:induction false} TrimLeftSlashExactly(p: string)
    ensures var t := TrimLeftSlash(p);
            && |t| <= |p| && t == p[|p| - |t|..] && (t != "" ==> t[0] != '/')
            && forall k :: 0 <= k < |p| - |t| ==> p[k] == '/'
  {
    if p != "" && p[0] == '/' {
      TrimLeftSlashExactly(p[1..]);
      var t := TrimLeftSlash(p);
      assert t == p[1..][|p| - 1 - |t|..] == p[|p| - |t|..];
      forall k | 0 < k < |p| - |t| ensures p[k] == '/' { assert p[k] == p[1..][k - 1]; }
    }
  }

  /** Whatever a visit brings, the URL it gets has the stored fragment; the path, segment by segment, of
      the stored target and then of the suffix; and the parameters of the stored query, then the visit's. */
  lemma VisitIsAppended(lib: Library, codec: Codec, target: string, suffix: string, query: string)
    requires Faithful(lib, codec) && Lossless(codec) && !Contains(query, '#')
    requires ResolveSimple(lib, codec, target, suffix, query).Some?
    ensures var url := ResolveSimple(lib, codec, target, suffix, query).value;
            if suffix == "" && query == "" then url == target
            else
              && Split(url).Some? && Split(target).Some?
              && var r, u := Split(url).value, Split(target).value;
                 && r.fragment == u.fragment
                 && (if suffix == "" then codec.decode(r.path) == codec.decode(u.path)
                     else SplitOn(codec.decode(r.path), '/') ==
                            SplitOn(TrimRightSlash(codec.decode(u.path)), '/') + SplitOn(TrimLeftSlash(suffix), '/'))
                 && (if query == "" then r.query == u.query
                     else SplitOn(r.query, '&') == (if u.query == "" then [] else SplitOn(u.query, '&')) + SplitOn(query, '&'))
  {
    if suffix != "" || query != "" {
      Reread(lib, codec, target, suffix, query);
      var u := Split(target).value;
      if suffix != "" { SuffixSegments(codec.decode(u.path), suffix); }
      if query != "" && u.query != "" { SplitJoined(u.query, query, '&'); }
      assert query != "" && u.query == "" ==> [] + SplitOn(query, '&') == SplitOn(query, '&');
    }
  }

  /** A target is refused exactly when something is to be put to it and it names no scheme or no host. */
  lemma RefusesExactly(lib: Library, codec: Codec, target: string, suffix: string, query: string)
    requires lib.host("") == Some("")
    ensures ResolveSimple(lib, codec, target, suffix, query).None? <==>
              && (suffix != "" || query != "")
              && (Split(target).None? || !lib.fine(target) || Split(target).value.scheme == ""
                  || Split(target).value.authority.None?
                  || lib.host(Split(target).value.authority.value).None?
                  || lib.host(Split(target).value.authority.value) == Some(""))
  {
  }

  // ---- the path ------------------------------------------------------------------------------------

  /** Following a path segment by segment, as section 5.2.4 of RFC 3986 has it: "." stays, ".." goes
      up, at the root nowhere. */
  function Walk(at: seq<string>, segments: seq<string>): seq<string>
    decreases |segments|
  {
    if segments == [] then at
    else
      var s := segments[0];
      Walk(if s == "." then at else if s == ".." then (if at == [] then [] else at[..|at| - 1]) else at + [s], segments[1..])
  }

  /** From a depth, no step of the way leads above where it started. */
  predicate NeverClimbs(segments: seq<string>, depth: nat)
    decreases |segments|
  {
    segments == [] ||
      if segments[0] == "." then NeverClimbs(segments[1..], depth)
      else if segments[0] == ".." then depth > 0 && NeverClimbs(segments[1..], depth - 1)
      else NeverClimbs(segments[1..], depth + 1)
  }

  /** Each segment of the suffix comes behind those of the stored path. */
  lemma SuffixSegments(path: string, suffix: string)
    requires suffix != ""
    ensures SplitOn(WithSuffix(path, suffix), '/') ==
              SplitOn(TrimRightSlash(path), '/') + SplitOn(TrimLeftSlash(suffix), '/')
  {
    SplitJoined(TrimRightSlash(path), TrimLeftSlash(suffix), '/');
  }

  lemma {:induction false} WalkConcat(at: seq<string>, a: seq<string>, b: seq<string>)
    ensures Walk(at, a + b) == Walk(Walk(at, a), b)
    decreases |a|
  {
    if a == [] {
      assert a + b == b;
    } else {
      assert (a + b)[0] == a[0] && (a + b)[1..] == a[1..] + b;
      var s := a[0];
      WalkConcat(if s == "." then at else if s == ".." then (if at == [] then [] else at[..|at| - 1]) else at + [s], a[1..], b);
    }
  }

  /** base is not left at any point of the way. */
  ghost predicate StaysUnder(base: seq<string>, at: seq<string>, segments: seq<string>) {
    forall k :: 0 <= k <= |segments| ==> base <= Walk(at, segments[..k])
  }

  lemma StaysStep(base: seq<string>, at: seq<string>, next: seq<string>, segments: seq<string>)
    requires segments != [] && base <= at && forall rest :: Walk(at, [segments[0]] + rest) == Walk(next, rest)
    ensures StaysUnder(base, at, segments) <==> StaysUnder(base, next, segments[1..])
  {
    var rest := segments[1..];
    forall k | 0 < k <= |segments| ensures Walk(at, segments[..k]) == Walk(next, rest[..k - 1]) {
      assert segments[..k] == [segments[0]] + rest[..k - 1];
    }
    forall k | 0 <= k <= |rest| ensures Walk(next, rest[..k]) == Walk(at, segments[..k + 1]) {}
  }

  lemma WalkOne(at: seq<string>, s: string, rest: seq<string>)
    ensures Walk(at, [s] + rest) ==
              Walk(if s == "." then at else if s == ".." then (if at == [] then [] else at[..|at| - 1]) else at + [s], rest)
  {
    assert ([s] + rest)[1..] == rest;
  }

  /** A suffix stays under a stored path that is not the root, all the way, exactly when no step of it
      leads above its own start. */
  lemma {:induction false} StaysExactly(base: seq<string>, more: seq<string>, segments: seq<string>)
    requires base != []
    ensures StaysUnder(base, base + more, segments) <==> NeverClimbs(segments, |more|)
    decreases |segments|
  {
    var at := base + more;
    if segments == [] {
      assert segments[..0] == [];
    } else {
      var s := segments[0];
      forall rest { WalkOne(at, s, rest); }
      if s == "." {
        StaysStep(base, at, at, segments);
        StaysExactly(base, more, segments[1..]);
      } else if s == ".." {
        StaysStep(base, at, at[..|at| - 1], segments);
        if more == [] {
          assert at[..|at| - 1] == base[..|base| - 1] && segments[1..][..0] == [];
          assert !(base <= Walk(base[..|base| - 1], []));
        } else {
          assert at[..|at| - 1] == base + more[..|more| - 1];
          StaysExactly(base, more[..|more| - 1], segments[1..]);
        }
      } else {
        StaysStep(base, at, at + [s], segments);
        assert at + [s] == base + (more + [s]);
        StaysExactly(base, more + [s], segments[1..]);
      }
    }
  }

  predicate DotFree(segments: seq<string>) {
    forall k :: 0 <= k < |segments| ==> segments[k] != "." && segments[k] != ".."
  }

  /** Without dot segments the suffix is where it says: right behind the stored path. */
  lemma {:induction false} DotFreeAppends(at: seq<string>, segments: seq<string>)
    requires DotFree(segments)
    ensures Walk(at, segments) == at + segments
    decreases |segments|
  {
    if segments != [] {
      forall k | 0 <= k < |segments| - 1 ensures segments[1..][k] != "." && segments[1..][k] != ".." {
        assert segments[1..][k] == segments[k + 1];
      }
      DotFreeAppends(at + [segments[0]], segments[1..]);
      assert at + [segments[0]] + segments[1..] == at + segments;
    }
  }

  /** Where a path leads from the root; its first segment is what stands before its first slash. */
  function Place(path: string): seq<string> { Walk([], SplitOn(path, '/')[1..]) }

  lemma PlaceWithSuffix(path: string, suffix: string)
    requires suffix != ""
    ensures Place(WithSuffix(path, suffix)) == Walk(Place(TrimRightSlash(path)), SplitOn(TrimLeftSlash(suffix), '/'))
  {
    var stored, way := SplitOn(TrimRightSlash(path), '/'), SplitOn(TrimLeftSlash(suffix), '/');
    SuffixSegments(path, suffix);
    assert (stored + way)[1..] == stored[1..] + way;
    WalkConcat([], stored[1..], way);
  }

  /** Every stored path that leads anywhere is kept under every suffix that never climbs, and by no
      other suffix. */
  lemma StoredPathKeptExactly(path: string, suffix: string)
    requires suffix != "" && Place(TrimRightSlash(path)) != []
    ensures var base, way := Place(TrimRightSlash(path)), SplitOn(TrimLeftSlash(suffix), '/');
            && Place(WithSuffix(path, suffix)) == Walk(base, way)
            && (StaysUnder(base, base, way) <==> NeverClimbs(way, 0))
            && (DotFree(way) ==> Place(WithSuffix(path, suffix)) == base + way)
  {
    var base, way := Place(TrimRightSlash(path)), SplitOn(TrimLeftSlash(suffix), '/');
    PlaceWithSuffix(path, suffix);
    assert base + [] == base;
    StaysExactly(base, [], way);
    if DotFree(way) { DotFreeAppends(base, way); }
  }

  /** That is where the URL of the visit leads. */
  lemma UrlPathKept(lib: Library, codec: Codec, target: string, suffix: string, query: string)
    requires Faithful(lib, codec) && Lossless(codec) && !Contains(query, '#') && suffix != ""
    requires ResolveSimple(lib, codec, target, suffix, query).Some?
    requires Place(TrimRightSlash(codec.decode(Split(target).value.path))) != []
    ensures var stored, way := codec.decode(Split(target).value.path), SplitOn(TrimLeftSlash(suffix), '/');
            var base, url := Place(TrimRightSlash(stored)), Split(ResolveSimple(lib, codec, target, suffix, query).value);
            && url.Some? && Place(codec.decode(url.value.path)) == Walk(base, way)
            && (NeverClimbs(way, 0) ==> base <= Place(codec.decode(url.value.path)))
            && (DotFree(way) ==> Place(codec.decode(url.value.path)) == base + way)
  {
    Reread(lib, codec, target, suffix, query);
    var stored, way := codec.decode(Split(target).value.path), SplitOn(TrimLeftSlash(suffix), '/');
    StoredPathKeptExactly(stored, suffix);
    assert way[..|way|] == way;
  }

  /** The shortest suffix that leaves: one step up. */
  lemma OneStepUp(path: string)
    requires Place(TrimRightSlash(path)) != []
    ensures var base := Place(TrimRightSlash(path)); Place(WithSuffix(path, "..")) == base[..|base| - 1]
  {
    var base := Place(TrimRightSlash(path));
    StoredPathKeptExactly(path, "..");
    assert TrimLeftSlash("..") == ".." && IndexOf("..", '/') == 2;
    assert SplitOn("..", '/') == [".."];
    WalkOne(base, "..", []);
    assert [".."] + [] == [".."];
  }
}
