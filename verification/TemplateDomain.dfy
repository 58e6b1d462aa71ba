/** The static-domain check for templates: what it accepts at creation stays within the allowed
    domains whatever the template's actions put out. */
module TemplateDomain {
  import opened Common
  import opened Text
  import opened Domains

  // ---- URLs ------------------------------------------------------------------------------------

  function Before(s: string, c: char): string { s[..IndexOf(s, c)] }

  function After(s: string, c: char): string {
    var i := IndexOf(s, c);
    if i < |s| then s[i + 1..] else ""
  }

  predicate Letter(c: char) { 'a' <= c <= 'z' || 'A' <= c <= 'Z' }

  predicate SchemeChar(c: char) { Letter(c) || '0' <= c <= '9' || c == '+' || c == '-' || c == '.' }

  /** The scheme and what follows its colon; no scheme leaves everything; a leading colon is an
      error. */
  function GetScheme(s: string, i: nat): Option<(string, string)>
    requires i <= |s|
    decreases |s| - i
  {
    if i == |s| then Some(("", s))
    else if Letter(s[i]) then GetScheme(s, i + 1)
    else if SchemeChar(s[i]) then if i == 0 then Some(("", s)) else GetScheme(s, i + 1)
    else if s[i] == ':' then if i == 0 then None else Some((s[..i], s[i + 1..]))
    else Some(("", s))
  }

  datatype Url = Url(scheme: string, authority: Option<string>, path: string, query: string, fragment: string)

  /** Cut at '#', then the scheme, then '?', then the authority up to '/'. */
  function Split(s: string): Option<Url> {
    match GetScheme(Before(s, '#'), 0)
    case None => None
    case Some((scheme, after)) =>
      var rest := Before(after, '?');
      if "//" <= rest && (scheme != "" || !("///" <= rest)) then
        var a := rest[2..];
        Some(Url(scheme, Some(Before(a, '/')), a[IndexOf(a, '/')..], After(after, '?'), After(s, '#')))
      else Some(Url(scheme, None, rest, After(after, '?'), After(s, '#')))
  }

  /** What else the URL library checks: `fine` of the text as a whole, `host` of an authority,
      giving the decoded host when that is in order. */
  datatype Library = Library(fine: string -> bool, host: string -> Option<string>)

  /** What is needed of the library: no authority with a space in it is accepted, and an empty
      one has an empty host. */
  ghost predicate Standard(lib: Library) {
    lib.host("") == Some("") && forall a: string :: Contains(a, ' ') ==> lib.host(a).None?
  }

  /** The host of a URL that parses; "" when it has none. */
  function Host(lib: Library, s: string): Option<string> {
    if !lib.fine(s) || Split(s).None? then None
    else
      match Split(s).value.authority
      case None => Some("")
      case Some(a) => lib.host(a)
  }

  function LastIndexOf(s: string, c: char, n: nat): (i: int)
    requires n <= |s|
    ensures -1 <= i < n && (i >= 0 ==> s[i] == c) && forall k :: i < k < n ==> s[k] != c
  {
    if n == 0 then -1 else if s[n - 1] == c then n - 1 else LastIndexOf(s, c, n - 1)
  }

  predicate ValidPort(s: string) { forall k :: 0 < k < |s| ==> '0' <= s[k] <= '9' }

  function Unbracketed(h: string): string {
    if |h| >= 2 && h[0] == '[' && h[|h| - 1] == ']' then h[1..|h| - 1] else h
  }

  /** Without port and brackets. */
  function Hostname(host: string): string {
    var colon := LastIndexOf(host, ':', |host|);
    Unbracketed(if colon >= 0 && ValidPort(host[colon..]) then host[..colon] else host)
  }

  predicate CheckAdvancedLinkDomain(lib: Library, url: string, patterns: seq<string>) {
    patterns == [] ||
      var host := Host(lib, url);
      host.Some? && host.value != "" && MatchesAny(Hostname(host.value), patterns)
  }

  /** The URL names a host that an entry of the list covers. */
  ghost predicate CoveredHost(lib: Library, url: string, patterns: seq<string>) {
    var host := Host(lib, url);
    host.Some? && host.value != "" && exists k :: 0 <= k < |patterns| && Covers(patterns[k], Hostname(host.value))
  }

  /** The check made at a visit. */
  lemma PassesExactly(lib: Library, url: string, patterns: seq<string>)
    ensures CheckAdvancedLinkDomain(lib, url, patterns) <==> patterns == [] || CoveredHost(lib, url, patterns)
  {
    if Host(lib, url).Some? { ListExactly(Hostname(Host(lib, url).value), patterns); }
  }

  // ---- ports and addresses -----------------------------------------------------------------------

  predicate Port(port: string) { port == "" || (port[0] == ':' && ValidPort(port)) }

  lemma LastColon(x: string, i: nat)
    requires i < |x| && x[i] == ':' && forall k :: i < k < |x| ==> x[k] != ':'
    ensures LastIndexOf(x, ':', |x|) == i
  {
  }

  lemma HostnameWithPort(h: string, port: string)
    requires port != "" && Port(port)
    ensures Hostname(h + port) == Unbracketed(h)
  {
    var x := h + port;
    forall k | |h| < k < |x| ensures x[k] != ':' { assert x[k] == port[k - |h|]; }
    LastColon(x, |h|);
    assert x[|h|..] == port && x[..|h|] == h;
  }

  lemma BracketedHostname(a: string)
    ensures Hostname(['['] + a + [']']) == a && Unbracketed(['['] + a + [']']) == a
  {
    var x := ['['] + a + [']'];
    assert x[|x| - 1] == ']' && x[0] == '[' && x[1..|x| - 1] == a;
    var colon := LastIndexOf(x, ':', |x|);
    if colon >= 0 { assert x[colon..][|x| - 1 - colon] == ']'; }
  }

  /** The check at a visit compares names: whatever port follows one, it decides by the name. */
  lemma PortsDoNotMatter(lib: Library, url: string, h: string, port: string, patterns: seq<string>)
    requires patterns != [] && Host(lib, url) == Some(h + port) && Port(port)
    requires h != "" && h[0] != '[' && !Contains(h, ':')
    ensures CheckAdvancedLinkDomain(lib, url, patterns) <==> MatchesAny(h, patterns)
  {
    if port == "" { assert h + port == h; } else { HostnameWithPort(h, port); }
  }

  /** A valid list covers no IPv6 address, with or without a port. */
  lemma AddressesAreNotCovered(lib: Library, url: string, a: string, port: string, patterns: seq<string>)
    requires patterns != [] && forall k :: 0 <= k < |patterns| ==> ValidPattern(patterns[k])
    requires Host(lib, url) == Some((['['] + a + [']']) + port) && Port(port) && Contains(a, ':')
    ensures !CheckAdvancedLinkDomain(lib, url, patterns)
  {
    var h := ['['] + a + [']'];
    BracketedHostname(a);
    if port == "" { assert h + port == h; } else { HostnameWithPort(h, port); }
    var k :| 0 <= k < |a| && a[k] == ':';
    LowerAt(a, k);
    assert !HostChars(ToLower(a));
    if MatchesAny(a, patterns) { MatchedHostsAreClean(a, patterns); }
  }

  // ---- the authority, as section 3.2 of RFC 3986 has it ------------------------------------------

  predicate Delimiter(c: char) { c == '/' || c == '?' || c == '#' }

  /** The authority is terminated by the next slash, question mark or number sign, or by the end. */
  function AuthorityEnd(s: string, start: nat): (e: nat)
    requires start <= |s|
    ensures start <= e <= |s| && (e < |s| ==> Delimiter(s[e])) && forall k :: start <= k < e ==> !Delimiter(s[k])
    decreases |s| - start
  {
    if start == |s| || Delimiter(s[start]) then start else AuthorityEnd(s, start + 1)
  }

  /** Where the authority starts. */
  function Start(scheme: string): nat { (if scheme == "" then 0 else |scheme| + 1) + 2 }

  lemma {:induction false} SchemeShape(s: string, i: nat)
    requires i <= |s| && GetScheme(s, i).Some? && forall k :: 0 <= k < i ==> SchemeChar(s[k])
    ensures var (scheme, rest) := GetScheme(s, i).value;
            if scheme == "" then rest == s
            else |scheme| < |s| && scheme == s[..|scheme|] && s[|scheme|] == ':' && rest == s[|scheme| + 1..]
                 && forall k :: 0 <= k < |scheme| ==> SchemeChar(scheme[k])
    decreases |s| - i
  {
    if i < |s| && SchemeChar(s[i]) && (Letter(s[i]) || i > 0) { SchemeShape(s, i + 1); }
  }

  lemma {:induction false} SchemeStable(s: string, t: string, i: nat)
    requires i <= |s| && GetScheme(s, i).Some? && forall k :: 0 <= k < i ==> SchemeChar(s[k])
    requires var n := |GetScheme(s, i).value.0|; n > 0 && i <= n < |s| && n < |t| && s[..n + 1] == t[..n + 1]
    ensures GetScheme(t, i) == Some((GetScheme(s, i).value.0, t[|GetScheme(s, i).value.0| + 1..]))
    decreases |s| - i
  {
    SchemeShape(s, i);
    var n := |GetScheme(s, i).value.0|;
    assert s[..n + 1][i] == t[..n + 1][i] && s[..n + 1][n] == t[..n + 1][n];
    if i < n {
      SchemeStable(s, t, i + 1);
    } else {
      assert s[..n] == s[..n + 1][..n] && t[..n] == t[..n + 1][..n];
    }
  }

  /** The scheme, as positions: what follows starts at p. */
  lemma SchemePosition(s: string, p: nat)
    requires Split(s).Some?
    requires p == if Split(s).value.scheme == "" then 0 else |Split(s).value.scheme| + 1
    ensures var h, scheme := IndexOf(s, '#'), Split(s).value.scheme;
            && p <= h && GetScheme(s[..h], 0) == Some((scheme, s[p..h]))
            && (scheme != "" ==> s[..p - 1] == scheme && s[p - 1] == ':')
            && forall k :: 0 <= k < |scheme| ==> SchemeChar(scheme[k])
  {
    var h := IndexOf(s, '#');
    SchemeShape(s[..h], 0);
    assert s[..h][p..] == s[p..h];
    if p > 0 { assert s[..h][..p - 1] == s[..p - 1]; }
  }

  lemma AuthorityPosition(s: string, p: nat, after: string, rest: string, a: string, e: nat)
    requires p <= IndexOf(s, '#') && after == s[p..IndexOf(s, '#')] && rest == Before(after, '?')
    requires |rest| >= 2 && a == rest[2..] && e == IndexOf(a, '/')
    ensures AuthorityEnd(s, p + 2) == p + 2 + e && a[..e] == s[p + 2..p + 2 + e]
  {
    forall k | 0 <= k < |a| ensures a[k] == s[p + 2 + k] && a[k] != '?' && a[k] != '#' {
      assert a[k] == rest[k + 2] == after[k + 2] == s[p + 2 + k];
    }
    forall k | p + 2 <= k < p + 2 + e ensures !Delimiter(s[k]) { assert s[k] == a[k - p - 2]; }
    EndIs(s, p + 2, p + 2 + e);
    assert |a[..e]| == |s[p + 2..p + 2 + e]|;
  }

  /** Cutting at '#', '?' and '/' in turn finds the authority of the standard. */
  lemma SplitFindsAuthority(s: string)
    requires Split(s).Some? && Split(s).value.authority.Some?
    ensures var u := Split(s).value;
            var start := Start(u.scheme);
            && start <= |s| && s[start - 2] == s[start - 1] == '/'
            && (u.scheme != "" ==> s[..|u.scheme|] == u.scheme && s[|u.scheme|] == ':')
            && (forall k :: 0 <= k < |u.scheme| ==> SchemeChar(u.scheme[k]))
            && u.authority.value == s[start..AuthorityEnd(s, start)]
  {
    var p := Start(Split(s).value.scheme) - 2;
    SchemePosition(s, p);
    var after := s[p..IndexOf(s, '#')];
    var rest := Before(after, '?');
    Slashes(s, p, after, rest);
    AuthorityPosition(s, p, after, rest, rest[2..], IndexOf(rest[2..], '/'));
  }

  lemma Slashes(s: string, p: nat, after: string, rest: string)
    requires p <= IndexOf(s, '#') && after == s[p..IndexOf(s, '#')] && rest == Before(after, '?') && "//" <= rest
    ensures |rest| >= 2 && p + 2 <= |s| && s[p] == s[p + 1] == '/'
  {
    assert rest[0] == after[0] == s[p] && rest[1] == after[1] == s[p + 1];
  }

  lemma EndIs(s: string, start: nat, e: nat)
    requires start <= e <= |s| && (e < |s| ==> Delimiter(s[e])) && forall k :: start <= k < e ==> !Delimiter(s[k])
    ensures AuthorityEnd(s, start) == e
  {
  }

  // ---- expansion -------------------------------------------------------------------------------

  predicate Opens(s: string, i: nat) { i + 1 < |s| && s[i] == '{' && s[i + 1] == '{' }

  function FindAction(s: string, i: nat): (r: nat)
    requires i <= |s|
    ensures i <= r <= |s| && (r < |s| ==> Opens(s, r)) && forall k :: i <= k < r ==> !Opens(s, k)
    decreases |s| - i
  {
    if i == |s| || Opens(s, i) then i else FindAction(s, i + 1)
  }

  /** Where the first action begins; the length of the text when there is none. */
  function StaticLength(template: string): nat { FindAction(template, 0) }

  predicate HasAction(template: string) { StaticLength(template) < |template| }

  predicate CheckTemplateTargetDomain(lib: Library, template: string, domains: seq<string>) {
    domains == [] ||
      var staticPart := TrimSpace(template[..StaticLength(template)]);
      (HasAction(template) ==> PastAuthority(lib, staticPart)) && CheckAdvancedLinkDomain(lib, staticPart, domains)
  }

  /** The cut leaves a host and something behind it. */
  predicate PastAuthority(lib: Library, s: string) {
    && Host(lib, s).Some? && Hostname(Host(lib, s).value) != ""
    && var u := Split(s).value; !(u.path == "" && u.query == "" && u.fragment == "")
  }

  /** What a template can put out: its static text, minus the white space a trim marker may eat,
      then anything at all; a template without actions puts out itself. */
  ghost predicate PutsOut(template: string, raw: string) {
    var n := StaticLength(template);
    if !HasAction(template) then raw == template
    else exists k :: 0 <= k <= n && AllSpace(template[k..n]) && template[..k] <= raw
  }

  predicate AllSpace(s: string) { forall k :: 0 <= k < |s| ==> IsSpace(s[k]) }

  const NO_VALUE := "<no value>"

  function RemoveNoValue(s: string): (r: string)
    ensures |r| <= |s|
    decreases |s|
  {
    if s == "" then ""
    else if NO_VALUE <= s then RemoveNoValue(s[10..])
    else [s[0]] + RemoveNoValue(s[1..])
  }

  /** The URL a visit gets. */
  function Result(raw: string): string { TrimSpace(RemoveNoValue(raw)) }

  /** The first marker goes, and what is behind it is treated alike. */
  lemma {:induction false} RemovalCuts(a: string, b: string)
    requires forall i :: 0 <= i < |a| ==> !(NO_VALUE <= (a + NO_VALUE + b)[i..])
    ensures RemoveNoValue(a + NO_VALUE + b) == a + RemoveNoValue(b)
    decreases |a|
  {
    var s := a + NO_VALUE + b;
    if a == "" {
      assert s == NO_VALUE + b && s[10..] == b;
    } else {
      var t := a[1..] + NO_VALUE + b;
      assert s[1..] == t && s[0..] == s;
      forall i | 0 <= i < |a[1..]| ensures !(NO_VALUE <= t[i..]) { assert t[i..] == s[i + 1..]; }
      RemovalCuts(a[1..], b);
      assert a == [a[0]] + a[1..];
    }
  }

  lemma {:induction false} RemovalKeeps(s: string, n: nat)
    requires n <= |s| && forall i :: 0 <= i < n ==> !(NO_VALUE <= s[i..])
    ensures n <= |RemoveNoValue(s)| && RemoveNoValue(s)[..n] == s[..n]
  {
    if n > 0 {
      assert s[0..] == s;
      forall i | 0 <= i < n - 1 ensures !(NO_VALUE <= s[1..][i..]) { assert s[1..][i..] == s[i + 1..]; }
      RemovalKeeps(s[1..], n - 1);
      var r := RemoveNoValue(s);
      assert r == [s[0]] + RemoveNoValue(s[1..]);
      assert r[..n] == [s[0]] + RemoveNoValue(s[1..])[..n - 1];
    }
  }

  lemma RightKeeps(r: string, l: string, a: nat, b: nat)
    requires a < b <= |r| && l == r[a..] && !IsSpace(r[b - 1])
    ensures b - a <= |TrimRight(l)| && TrimRight(l)[..b - a] == r[a..b]
  {
    RightShape(l);
    assert l[b - a - 1] == r[b - 1] && l[..b - a] == r[a..b];
    assert TrimRight(l)[..b - a] == l[..|TrimRight(l)|][..b - a];
  }

  lemma LeftTrimmed(r: string, a: nat)
    requires a < |r| && AllSpace(r[..a]) && !IsSpace(r[a])
    ensures TrimLeft(r) == r[a..]
  {
    LeftShape(r);
    forall k | 0 <= k < a ensures IsSpace(r[k]) { assert r[..a][k] == r[k]; }
  }

  /** Trimming keeps a stretch that starts and ends with something else than white space. */
  lemma TrimKeeps(r: string, a: nat, b: nat)
    requires a < b <= |r| && AllSpace(r[..a]) && !IsSpace(r[a]) && !IsSpace(r[b - 1])
    ensures b - a <= |TrimSpace(r)| && TrimSpace(r)[..b - a] == r[a..b]
  {
    var l := r[a..];
    LeftTrimmed(r, a);
    RightKeeps(r, l, a, b);
  }

  lemma TrimIsAll(r: string, a: nat, b: nat)
    requires a < b <= |r| && AllSpace(r[..a]) && !IsSpace(r[a]) && !IsSpace(r[b - 1]) && AllSpace(r[b..])
    ensures TrimSpace(r) == r[a..b]
  {
    var l := r[a..];
    LeftTrimmed(r, a);
    RightKeeps(r, l, a, b);
    RightShape(l);
    forall k | b - a <= k < |l| ensures IsSpace(l[k]) { assert l[k] == r[b..][k - (b - a)]; }
  }

  // ---- soundness -------------------------------------------------------------------------------

  /** Position by position, t starts like s up to the end e of its authority. */
  ghost predicate SameUpTo(s: string, t: string, start: nat, e: nat) {
    && start < e <= |s| && e <= |t| && (e < |t| ==> Delimiter(t[e]))
    && forall k :: 0 <= k < e ==> t[k] == s[k] && (k >= start || k < start - 2 ==> !Delimiter(t[k]))
  }

  /** A URL that continues another one from its authority's delimiter on has the same authority. */
  lemma SameAuthority(s: string, t: string)
    requires Split(s).Some? && Split(s).value.authority.Some? && Split(s).value.authority.value != ""
    requires Start(Split(s).value.scheme) <= |s|
    requires var e := AuthorityEnd(s, Start(Split(s).value.scheme));
             e <= |t| && t[..e] == s[..e] && (e < |t| ==> Delimiter(t[e]))
    ensures Split(t).Some? && Split(t).value.authority == Split(s).value.authority
  {
    SplitFindsAuthority(s);
    var start := Start(Split(s).value.scheme);
    var e := AuthorityEnd(s, start);
    LikeUpTo(s, t, start, e);
    EndSame(s, t, start, e);
    SplitFindsAuthority(t);
  }

  lemma LikeUpTo(s: string, t: string, start: nat, e: nat)
    requires Split(s).Some? && Split(s).value.authority.Some? && start == Start(Split(s).value.scheme) <= |s|
    requires start < e == AuthorityEnd(s, start) && e <= |t| && t[..e] == s[..e] && (e < |t| ==> Delimiter(t[e]))
    ensures Split(t).Some? && Split(t).value.scheme == Split(s).value.scheme && Split(t).value.authority.Some?
  {
    SplitFindsAuthority(s);
    Agree(s, t, Split(s).value.scheme, start, e);
    SplitsLike(s, t, start, e);
  }

  lemma EndSame(s: string, t: string, start: nat, e: nat)
    requires start <= e <= |s| && e == AuthorityEnd(s, start) && e <= |t| && t[..e] == s[..e] && (e < |t| ==> Delimiter(t[e]))
    ensures AuthorityEnd(t, start) == e && t[start..e] == s[start..e]
  {
    forall k | start <= k < e ensures t[k] == s[k] && !Delimiter(t[k]) { assert t[..e][k] == s[..e][k]; }
    EndIs(t, start, e);
  }

  lemma Agree(s: string, t: string, scheme: string, start: nat, e: nat)
    requires start == Start(scheme) < e <= |s| && e <= |t| && t[..e] == s[..e] && (e < |t| ==> Delimiter(t[e]))
    requires scheme != "" ==> s[..|scheme|] == scheme && s[|scheme|] == ':'
    requires forall k :: 0 <= k < |scheme| ==> SchemeChar(scheme[k])
    requires forall k :: start <= k < e ==> !Delimiter(s[k])
    ensures SameUpTo(s, t, start, e)
  {
    forall k | 0 <= k < |scheme| ensures s[k] == scheme[k] {}
    forall k | 0 <= k < e ensures t[k] == s[k] && (k >= start || k < start - 2 ==> !Delimiter(t[k])) {
      assert t[..e][k] == s[..e][k];
    }
  }

  lemma HashBeyond(s: string, t: string, start: nat, e: nat)
    requires start >= 2 && SameUpTo(s, t, start, e) && s[start - 2] == s[start - 1] == '/'
    ensures IndexOf(s, '#') >= e && IndexOf(t, '#') >= e
  {
    forall k | 0 <= k < e ensures t[k] == s[k] && t[k] != '#' {}
  }

  lemma SplitsLike(s: string, t: string, start: nat, e: nat)
    requires Split(s).Some? && Split(s).value.authority.Some? && start == Start(Split(s).value.scheme)
    requires SameUpTo(s, t, start, e) && s[start - 2] == s[start - 1] == '/'
    ensures Split(t).Some? && Split(t).value.scheme == Split(s).value.scheme && Split(t).value.authority.Some?
  {
    var scheme, hs, h, p := Split(s).value.scheme, IndexOf(s, '#'), IndexOf(t, '#'), start - 2;
    HashBeyond(s, t, start, e);
    SchemePosition(s, p);
    SchemeAgain(s[..hs], t[..h], scheme, p);
    assert t[..h][p..] == t[p..h];
    BeginsAuthority(t, p, e);
  }

  lemma BeginsAuthority(t: string, p: nat, e: nat)
    requires p + 2 < e <= IndexOf(t, '#') && t[p] == t[p + 1] == '/' && forall k :: p + 2 <= k < e ==> !Delimiter(t[k])
    ensures var rest := Before(t[p..IndexOf(t, '#')], '?'); "//" <= rest && !("///" <= rest)
  {
    var after := t[p..IndexOf(t, '#')];
    forall k | 0 <= k < e - p ensures after[k] == t[p + k] {}
    assert IndexOf(after, '?') >= e - p;
    assert after[2] == t[p + 2];
  }

  lemma SchemeAgain(u: string, v: string, scheme: string, p: nat)
    requires p < |u| && p < |v| && GetScheme(u, 0) == Some((scheme, u[p..])) && forall k :: 0 <= k <= p ==> u[k] == v[k]
    requires p == (if scheme == "" then 0 else |scheme| + 1) && (scheme == "" ==> v[0] == '/')
    ensures GetScheme(v, 0) == Some((scheme, v[p..]))
  {
    if scheme != "" {
      assert u[..p] == v[..p];
      SchemeStable(u, v, 0);
    }
  }

  /** No "<no value>" starts before the end of the authority: its fourth character is a space,
      and its second to fourth are no delimiters. */
  lemma NoValueElsewhere(raw: string, lead: nat, start: nat, e: nat)
    requires lead <= start <= e <= |raw| && AllSpace(raw[..lead])
    requires forall k :: lead <= k < start ==> raw[k] != '<'
    requires !Contains(raw[start..e], ' ') && (e < |raw| ==> Delimiter(raw[e]) || AllSpace(raw[e..]))
    ensures forall i :: 0 <= i < e ==> !(NO_VALUE <= raw[i..])
    ensures e < |raw| && Delimiter(raw[e]) ==> !(NO_VALUE <= raw[e..])
    ensures AllSpace(raw[e..]) ==> forall i :: 0 <= i < |raw| ==> !(NO_VALUE <= raw[i..])
  {
    assert NO_VALUE[0] == '<' && NO_VALUE[1] == 'n' && NO_VALUE[2] == 'o' && NO_VALUE[3] == ' ' && NO_VALUE[4] == 'v';
    forall k | 0 <= k < lead ensures raw[k] != '<' { assert raw[k] == raw[..lead][k]; }
    forall k | start <= k < e ensures raw[k] != ' ' { assert raw[k] == raw[start..e][k - start]; }
    if AllSpace(raw[e..]) {
      forall k | e <= k < |raw| ensures IsSpace(raw[k]) { assert raw[k] == raw[e..][k - e]; }
    }
    forall i | 0 <= i < |raw| && NO_VALUE <= raw[i..]
      ensures raw[i] == '<' && (AllSpace(raw[e..]) || i >= e)
    {
      var r := raw[i..];
      assert r[0] == raw[i] && r[1] == raw[i + 1] && r[2] == raw[i + 2] && r[3] == raw[i + 3] && r[4] == raw[i + 4];
    }
  }

  /** The static part of an accepted template. */
  function StaticPart(template: string): string { TrimSpace(template[..StaticLength(template)]) }

  ghost predicate HasHost(s: string) {
    Split(s).Some? && Split(s).value.authority.Some? && Split(s).value.authority.value != ""
      && !Contains(Split(s).value.authority.value, ' ')
  }

  lemma AcceptedHasHost(lib: Library, s: string, patterns: seq<string>)
    requires Standard(lib) && patterns != [] && CheckAdvancedLinkDomain(lib, s, patterns)
    ensures HasHost(s)
  {
  }

  /** Nothing behind the authority, or only "?", "#" or "?#". */
  predicate Bare(tail: string) {
    && |tail| <= 2
    && (|tail| == 1 ==> tail[0] == '?' || tail[0] == '#')
    && (|tail| == 2 ==> tail[0] == '?' && tail[1] == '#')
  }

  lemma AfterEmpty(s: string, c: char)
    ensures After(s, c) == "" <==> IndexOf(s, c) + 1 >= |s|
  {
  }

  /** The three cuts, as positions: path from e, query from q, fragment from h. */
  lemma BareTail(s: string, e: nat, q: nat, h: nat)
    requires e <= q <= h <= |s| && (h < |s| ==> s[h] == '#') && (q < h ==> s[q] == '?')
    requires (forall k :: e <= k < h ==> s[k] != '#') && (forall k :: e <= k < q ==> s[k] != '?')
    ensures q == e && q + 1 >= h && h + 1 >= |s| <==> Bare(s[e..])
  {
    var tail := s[e..];
    forall k | 0 <= k < |tail| ensures tail[k] == s[e + k] {}
  }

  lemma NothingBehind(s: string, p: nat, after: string, rest: string, e: nat)
    requires p <= IndexOf(s, '#') && after == s[p..IndexOf(s, '#')] && rest == Before(after, '?')
    requires |rest| >= 2 && e == AuthorityEnd(s, p + 2)
    ensures rest[2..][IndexOf(rest[2..], '/')..] == "" && After(after, '?') == "" && After(s, '#') == "" <==> Bare(s[e..])
  {
    AuthorityPosition(s, p, after, rest, rest[2..], IndexOf(rest[2..], '/'));
    AfterEmpty(after, '?');
    if |rest| < |after| { assert after[|rest|] == s[p + |rest|]; }
    forall k | e <= k < p + |rest| ensures s[k] != '?' { assert s[k] == after[k - p]; }
    AfterEmpty(s, '#');
    BareTail(s, e, p + |rest|, IndexOf(s, '#'));
  }

  lemma TailBare(s: string, e: nat)
    requires Split(s).Some? && Split(s).value.authority.Some?
    requires Start(Split(s).value.scheme) <= |s| && e == AuthorityEnd(s, Start(Split(s).value.scheme))
    ensures var u := Split(s).value; u.path == "" && u.query == "" && u.fragment == "" <==> Bare(s[e..])
  {
    var p, h := Start(Split(s).value.scheme) - 2, IndexOf(s, '#');
    SchemePosition(s, p);
    var after := s[p..h];
    var rest := Before(after, '?');
    NothingBehind(s, p, after, rest, e);
  }

  /** Without a list, which is the default, nothing is restricted, at creation or later. */
  lemma NoListNoRestriction(lib: Library, template: string, url: string)
    ensures CheckTemplateTargetDomain(lib, template, []) && CheckAdvancedLinkDomain(lib, url, [])
  {
  }

  /** A template without actions is accepted exactly when it names a covered host itself. */
  lemma AcceptsPlainExactly(lib: Library, template: string, domains: seq<string>)
    requires domains != [] && forall k :: 0 <= k < |template| ==> !Opens(template, k)
    ensures CheckTemplateTargetDomain(lib, template, domains) <==> CoveredHost(lib, TrimSpace(template), domains)
  {
    assert StaticLength(template) == |template| && template[..|template|] == template;
    PassesExactly(lib, TrimSpace(template), domains);
  }

  /** A template with actions is accepted exactly when its static text names a covered host and
      goes on behind it by more than a bare delimiter. */
  lemma AcceptsExactly(lib: Library, template: string, domains: seq<string>)
    requires Standard(lib) && domains != [] && HasAction(template)
    ensures var s := StaticPart(template);
            CheckTemplateTargetDomain(lib, template, domains) <==>
            && CoveredHost(lib, s, domains) && Hostname(Host(lib, s).value) != ""
            && Start(Split(s).value.scheme) <= |s| && !Bare(s[AuthorityEnd(s, Start(Split(s).value.scheme))..])
  {
    var s := StaticPart(template);
    PassesExactly(lib, s, domains);
    if CheckAdvancedLinkDomain(lib, s, domains) {
      AcceptedHasHost(lib, s, domains);
      SplitFindsAuthority(s);
      TailBare(s, AuthorityEnd(s, Start(Split(s).value.scheme)));
    }
  }

  function Lead(head: string): (n: nat)
    ensures n <= |head|
  {
    LeftShape(head);
    |head| - |TrimLeft(head)|
  }

  /** Where the trimmed text sits in the untrimmed one. */
  lemma TrimStretch(head: string)
    ensures var s := TrimSpace(head); Lead(head) + |s| <= |head| && head[Lead(head)..Lead(head) + |s|] == s
  {
    LeftShape(head);
    RightShape(TrimLeft(head));
    SliceOfTail(head, TrimLeft(head), TrimSpace(head), Lead(head));
  }

  lemma SliceOfTail(head: string, l: string, s: string, lead: nat)
    requires lead <= |head| && l == head[lead..] && |s| <= |l| && s == l[..|s|]
    ensures head[lead..lead + |s|] == s && forall k :: |s| <= k < |l| ==> l[k] == head[lead + k]
  {
  }

  lemma TrimSides(head: string)
    ensures AllSpace(head[..Lead(head)])
    ensures Lead(head) + |TrimSpace(head)| <= |head| && AllSpace(head[Lead(head) + |TrimSpace(head)|..])
  {
    LeftShape(head);
    var l := TrimLeft(head);
    RightShape(l);
    var s, lead := TrimRight(l), Lead(head);
    var tail := head[lead + |s|..];
    forall k | 0 <= k < |tail| ensures tail[k] == l[|s| + k] {}
  }

  /** Trailing white space eaten by a trim marker is none of the static part. */
  lemma TrimmedBefore(head: string, k: nat)
    requires TrimSpace(head) != "" && k <= |head| && AllSpace(head[k..])
    ensures Lead(head) + |TrimSpace(head)| <= k
  {
    TrimStretch(head);
    TrimFixpoint(head);
    var s := TrimSpace(head);
    var last := Lead(head) + |s| - 1;
    CharOf(head, s, Lead(head), |s| - 1);
    forall i | k <= i < |head| ensures IsSpace(head[i]) { assert head[k..][i - k] == head[i]; }
  }

  /** The static part, found again in what the template puts out. */
  ghost predicate Appears(s: string, raw: string, lead: nat) {
    lead + |s| <= |raw| && raw[lead..lead + |s|] == s && AllSpace(raw[..lead])
  }

  lemma StaticPartAppears(template: string, raw: string)
    requires PutsOut(template, raw) && StaticPart(template) != ""
    ensures Appears(StaticPart(template), raw, Lead(template[..StaticLength(template)]))
  {
    var n := StaticLength(template);
    var head := template[..n];
    TrimStretch(head);
    TrimSides(head);
    if HasAction(template) {
      var k :| 0 <= k <= n && AllSpace(template[k..n]) && template[..k] <= raw;
      assert head[k..] == template[k..n] && head[..k] == template[..k];
      TrimmedBefore(head, k);
      SameStretch(head, raw, k, Lead(head), Lead(head) + |StaticPart(template)|);
    } else {
      assert head == template;
    }
  }

  lemma SameStretch(t: string, raw: string, k: nat, a: nat, b: nat)
    requires a <= b <= k <= |t| && t[..k] <= raw
    ensures raw[..a] == t[..a] && raw[a..b] == t[a..b]
  {
    forall i | 0 <= i < b ensures raw[i] == t[i] { assert raw[..k][i] == t[..k][i]; }
  }

  /** The text in which the static part appears, white space around it aside, has its authority
      once expanded, whatever follows the authority's delimiter. */
  lemma KeepsAuthority(s: string, raw: string, lead: nat, start: nat, e: nat)
    requires HasHost(s) && Trimmed(s) && Appears(s, raw, lead)
    requires start == Start(Split(s).value.scheme) <= |s| && e == AuthorityEnd(s, start) < |s|
    ensures Split(Result(raw)).Some? && Split(Result(raw)).value.authority == Split(s).value.authority
  {
    SplitFindsAuthority(s);
    ResultBegins(s, raw, lead, start, e);
    FirstOf(s, Result(raw), e);
    SameAuthority(s, Result(raw));
  }

  lemma ResultBegins(s: string, raw: string, lead: nat, start: nat, e: nat)
    requires HasHost(s) && Trimmed(s) && Appears(s, raw, lead)
    requires start == Start(Split(s).value.scheme) <= |s| && e == AuthorityEnd(s, start) < |s|
    ensures e + 1 <= |Result(raw)| && Result(raw)[..e + 1] == s[..e + 1]
  {
    RemovalHarmless(s, raw, lead, start, e);
    TrimmedOutput(s, raw, RemoveNoValue(raw), lead, e);
  }

  lemma TrimmedOutput(s: string, raw: string, r: string, lead: nat, e: nat)
    requires Appears(s, raw, lead) && Trimmed(s) && e < |s| && Delimiter(s[e])
    requires lead + e + 1 <= |r| && r[..lead + e + 1] == raw[..lead + e + 1]
    ensures e + 1 <= |TrimSpace(r)| && TrimSpace(r)[..e + 1] == s[..e + 1]
  {
    Kept(s, raw, r, lead, e);
    TrimKeeps(r, lead, lead + e + 1);
  }

  lemma RemovalHarmless(s: string, raw: string, lead: nat, start: nat, e: nat)
    requires HasHost(s) && Appears(s, raw, lead)
    requires start == Start(Split(s).value.scheme) <= |s| && e == AuthorityEnd(s, start) < |s|
    ensures lead + e + 1 <= |RemoveNoValue(raw)| && RemoveNoValue(raw)[..lead + e + 1] == raw[..lead + e + 1]
  {
    NoMarkerBefore(s, raw, lead, start, e);
    RemovalKeeps(raw, lead + e + 1);
  }

  lemma NoMarkerBefore(s: string, raw: string, lead: nat, start: nat, e: nat)
    requires HasHost(s) && Appears(s, raw, lead)
    requires start == Start(Split(s).value.scheme) <= |s| && e == AuthorityEnd(s, start) < |s|
    ensures lead + e + 1 <= |raw| && forall i :: 0 <= i < lead + e + 1 ==> !(NO_VALUE <= raw[i..])
  {
    NoMarker(s, raw, lead, start, e);
    CharOf(raw, s, lead, e);
    NoValueElsewhere(raw, lead, lead + start, lead + e);
  }

  lemma Kept(s: string, raw: string, r: string, lead: nat, e: nat)
    requires Appears(s, raw, lead) && Trimmed(s) && e < |s| && Delimiter(s[e])
    requires lead + e + 1 <= |r| && r[..lead + e + 1] == raw[..lead + e + 1]
    ensures r[lead..lead + e + 1] == s[..e + 1] && AllSpace(r[..lead]) && !IsSpace(r[lead]) && !IsSpace(r[lead + e])
  {
    var n := lead + e + 1;
    assert r[lead..n] == r[..n][lead..n] && raw[lead..n] == raw[..n][lead..n];
    Within(raw, s, lead, 0, e + 1);
    assert r[..lead] == r[..n][..lead] && raw[..lead] == raw[..n][..lead];
    assert r[lead] == r[lead..n][0] && r[lead + e] == r[lead..n][e];
  }

  lemma FirstOf(s: string, t: string, e: nat)
    requires e < |s| && e + 1 <= |t| && t[..e + 1] == s[..e + 1]
    ensures t[..e] == s[..e] && t[e] == s[e]
  {
    assert t[..e] == t[..e + 1][..e] && s[..e] == s[..e + 1][..e];
    assert t[e] == t[..e + 1][e] && s[e] == s[..e + 1][e];
  }

  /** A stretch of a stretch. */
  lemma Within(raw: string, s: string, lead: nat, i: nat, j: nat)
    requires lead + |s| <= |raw| && raw[lead..lead + |s|] == s && i <= j <= |s|
    ensures raw[lead + i..lead + j] == s[i..j]
  {
    forall k | i <= k < j ensures raw[lead + k] == s[k] { CharOf(raw, s, lead, k); }
    var x, y := raw[lead + i..lead + j], s[i..j];
    forall m | 0 <= m < j - i ensures x[m] == y[m] { assert x[m] == raw[lead + (i + m)]; }
  }

  lemma CharOf(raw: string, s: string, lead: nat, k: nat)
    requires lead + |s| <= |raw| && raw[lead..lead + |s|] == s && k < |s|
    ensures raw[lead + k] == s[k]
  {
    assert raw[lead + k] == raw[lead..lead + |s|][k];
  }

  /** The scheme and its slashes hold no '<'. */
  lemma NoBracket(s: string, k: nat)
    requires Split(s).Some? && Split(s).value.authority.Some? && k < Start(Split(s).value.scheme) <= |s|
    ensures s[k] != '<'
  {
    SplitFindsAuthority(s);
    var scheme := Split(s).value.scheme;
    if k < |scheme| { assert s[..|scheme|][k] == scheme[k]; }
  }

  /** No marker can start in the scheme, and the authority has no space. */
  lemma NoMarker(s: string, raw: string, lead: nat, start: nat, e: nat)
    requires HasHost(s) && Appears(s, raw, lead)
    requires start == Start(Split(s).value.scheme) <= |s| && e == AuthorityEnd(s, start)
    ensures forall k :: lead <= k < lead + start ==> raw[k] != '<'
    ensures lead + e <= |raw| && !Contains(raw[lead + start..lead + e], ' ')
  {
    forall k | lead <= k < lead + start ensures raw[k] != '<' {
      CharOf(raw, s, lead, k - lead);
      NoBracket(s, k - lead);
    }
    Within(raw, s, lead, start, e);
    SplitFindsAuthority(s);
  }

  /** The same for a text that is the whole output and ends with its authority. */
  lemma KeepsAll(s: string, raw: string, lead: nat, start: nat)
    requires HasHost(s) && Trimmed(s) && Appears(s, raw, lead) && AllSpace(raw[lead + |s|..])
    requires start == Start(Split(s).value.scheme) <= |s| && AuthorityEnd(s, start) == |s|
    ensures Result(raw) == s
  {
    SplitFindsAuthority(s);
    NoMarker(s, raw, lead, start, |s|);
    NoValueElsewhere(raw, lead, lead + start, lead + |s|);
    Untouched(s, raw, lead);
  }

  lemma Untouched(s: string, raw: string, lead: nat)
    requires s != "" && Trimmed(s) && Appears(s, raw, lead) && AllSpace(raw[lead + |s|..])
    requires forall i :: 0 <= i < |raw| ==> !(NO_VALUE <= raw[i..])
    ensures Result(raw) == s
  {
    RemovalKeeps(raw, |raw|);
    assert RemoveNoValue(raw) == raw by { assert RemoveNoValue(raw)[..|raw|] == raw[..|raw|] == raw; }
    assert raw[lead] == raw[lead..lead + |s|][0] && raw[lead + |s| - 1] == raw[lead..lead + |s|][|s| - 1];
    TrimIsAll(raw, lead, lead + |s|);
  }

  lemma StaticAuthorityKept(template: string, raw: string, start: nat, e: nat)
    requires PutsOut(template, raw) && HasHost(StaticPart(template))
    requires start == Start(Split(StaticPart(template)).value.scheme) <= |StaticPart(template)|
    requires e == AuthorityEnd(StaticPart(template), start) && (HasAction(template) ==> e < |StaticPart(template)|)
    ensures var url, s := Result(raw), StaticPart(template);
            Split(url).Some? && Split(url).value.authority == Split(s).value.authority
  {
    var s, lead := StaticPart(template), Lead(template[..StaticLength(template)]);
    TrimFixpoint(template[..StaticLength(template)]);
    StaticPartAppears(template, raw);
    if e < |s| {
      KeepsAuthority(s, raw, lead, start, e);
    } else {
      WholeOutput(template, raw, lead);
      KeepsAll(s, raw, lead, start);
    }
  }

  /** An accepted template has its authority ended before its first action. */
  lemma AcceptedEndsAuthority(lib: Library, template: string, domains: seq<string>)
    requires Standard(lib) && domains != [] && CheckTemplateTargetDomain(lib, template, domains)
    ensures var s := StaticPart(template);
            && HasHost(s) && Start(Split(s).value.scheme) <= |s|
            && (HasAction(template) ==> AuthorityEnd(s, Start(Split(s).value.scheme)) < |s|)
  {
    var s := StaticPart(template);
    AcceptedHasHost(lib, s, domains);
    SplitFindsAuthority(s);
    TailBare(s, AuthorityEnd(s, Start(Split(s).value.scheme)));
  }

  /** Soundness of the check made at creation: whatever the actions of an accepted template put
      out, the URL of a visit has the authority of the static part; so whenever that URL parses
      at all, the check made at the visit accepts it too. */
  lemma CreationCheckIsSound(lib: Library, template: string, domains: seq<string>, raw: string)
    requires Standard(lib) && domains != [] && CheckTemplateTargetDomain(lib, template, domains) && PutsOut(template, raw)
    ensures var url, s := Result(raw), StaticPart(template);
            && Split(s).Some? && Split(url).Some? && Split(url).value.authority == Split(s).value.authority
            && (Host(lib, url).Some? ==> Host(lib, url) == Host(lib, s) && CheckAdvancedLinkDomain(lib, url, domains))
  {
    var s := StaticPart(template);
    AcceptedEndsAuthority(lib, template, domains);
    var start := Start(Split(s).value.scheme);
    StaticAuthorityKept(template, raw, start, AuthorityEnd(s, start));
  }

  lemma WholeOutput(template: string, raw: string, lead: nat)
    requires !HasAction(template) && PutsOut(template, raw) && lead == Lead(template[..StaticLength(template)])
    ensures lead + |StaticPart(template)| <= |raw| && AllSpace(raw[lead + |StaticPart(template)|..])
  {
    var head := template[..StaticLength(template)];
    assert head == template;
    TrimSides(head);
  }

  // ---- URLs written out ----------------------------------------------------------------------------

  predicate Scheme(sc: string) { sc != "" && Letter(sc[0]) && forall k :: 0 <= k < |sc| ==> SchemeChar(sc[k]) }

  predicate Undelimited(a: string) { forall k :: 0 <= k < |a| ==> !Delimiter(a[k]) }

  lemma {:induction false} SchemeReads(u: string, n: nat, i: nat)
    requires 0 < n < |u| && u[n] == ':' && Letter(u[0]) && i <= n && forall k :: 0 <= k < n ==> SchemeChar(u[k])
    ensures GetScheme(u, i) == Some((u[..n], u[n + 1..]))
    decreases n - i
  {
    if i < n { SchemeReads(u, n, i + 1); }
  }

  /** t is a scheme, "://", an authority, and something that begins with a delimiter or is nothing. */
  predicate Written(t: string, sc: string, au: string) {
    var n := |sc|;
    && Scheme(sc) && Undelimited(au) && n + 3 + |au| <= |t|
    && (forall k :: 0 <= k < n ==> t[k] == sc[k]) && t[n] == ':' && t[n + 1] == '/' && t[n + 2] == '/'
    && (forall k :: 0 <= k < |au| ==> t[n + 3 + k] == au[k])
    && (n + 3 + |au| < |t| ==> Delimiter(t[n + 3 + |au|]))
  }

  lemma WrittenHash(t: string, sc: string, au: string)
    requires Written(t, sc, au)
    ensures IndexOf(t, '#') >= |sc| + 3 + |au|
  {
    forall k | 0 <= k < |sc| ensures t[k] != '#' { assert SchemeChar(sc[k]); }
    forall k | |sc| + 3 <= k < |sc| + 3 + |au| ensures t[k] != '#' { assert !Delimiter(au[k - |sc| - 3]); }
  }

  lemma WrittenScheme(t: string, sc: string, au: string)
    requires Written(t, sc, au)
    ensures GetScheme(Before(t, '#'), 0) == Some((sc, t[|sc| + 1..IndexOf(t, '#')]))
  {
    WrittenHash(t, sc, au);
    var h, n := IndexOf(t, '#'), |sc|;
    var u := t[..h];
    forall k | 0 <= k < n ensures SchemeChar(u[k]) && u[k] == sc[k] {}
    SchemeReads(u, n, 0);
    assert u[..n] == sc && u[n + 1..] == t[n + 1..h];
  }

  lemma WrittenSlashes(t: string, sc: string, au: string)
    requires Written(t, sc, au)
    ensures "//" <= Before(t[|sc| + 1..IndexOf(t, '#')], '?')
  {
    WrittenHash(t, sc, au);
    var after := t[|sc| + 1..IndexOf(t, '#')];
    assert after[0] == '/' && after[1] == '/';
    assert IndexOf(after, '?') >= 2;
  }

  lemma UrlSplits(t: string, sc: string, au: string)
    requires Written(t, sc, au)
    ensures Split(t).Some? && Split(t).value.scheme == sc && Split(t).value.authority.Some?
  {
    WrittenScheme(t, sc, au);
    WrittenSlashes(t, sc, au);
  }

  lemma WrittenEnd(t: string, sc: string, au: string)
    requires Written(t, sc, au)
    ensures var start := |sc| + 3; AuthorityEnd(t, start) == start + |au| && t[start..start + |au|] == au
  {
    var start := |sc| + 3;
    forall k | start <= k < start + |au| ensures t[k] == au[k - start] && !Delimiter(t[k]) {
      assert t[start + (k - start)] == au[k - start];
    }
    EndIs(t, start, start + |au|);
  }

  lemma AuthorityAt(t: string, start: nat, e: nat, au: string)
    requires Split(t).Some? && Split(t).value.authority.Some? && start == Start(Split(t).value.scheme) <= |t|
    requires e == AuthorityEnd(t, start) && t[start..e] == au
    ensures Split(t).value.authority == Some(au)
  {
    SplitFindsAuthority(t);
  }

  lemma ReadsAuthority(t: string, sc: string, au: string)
    requires Written(t, sc, au) && Split(t).Some? && Split(t).value.authority.Some? && Split(t).value.scheme == sc
    ensures Split(t).value.authority == Some(au)
  {
    WrittenEnd(t, sc, au);
    AuthorityAt(t, |sc| + 3, |sc| + 3 + |au|, au);
  }

  /** Such a text is read as it was written. */
  lemma UrlReads(t: string, sc: string, au: string)
    requires Written(t, sc, au)
    ensures Split(t).Some? && Split(t).value.scheme == sc && Split(t).value.authority == Some(au)
    ensures Start(sc) == |sc| + 3 <= |t| && AuthorityEnd(t, Start(sc)) == |sc| + 3 + |au|
  {
    UrlSplits(t, sc, au);
    ReadsAuthority(t, sc, au);
    WrittenEnd(t, sc, au);
  }

  // ---- refused all the same ------------------------------------------------------------------------

  /** s, a bare delimiter, and an action. */
  function BareTemplate(s: string, rest: string): string { s + "?" + ("{{" + rest) }

  lemma BareStatic(s: string, rest: string)
    requires s != "" && Trimmed(s) && forall k :: 0 <= k < |s| ==> !Opens(s, k)
    ensures StaticLength(BareTemplate(s, rest)) == |s| + 1 && HasAction(BareTemplate(s, rest))
    ensures StaticPart(BareTemplate(s, rest)) == s + "?"
  {
    var t := BareTemplate(s, rest);
    assert t[|s|] == '?' && t[|s| + 1] == '{' && t[|s| + 2] == '{' && forall k :: 0 <= k < |s| ==> t[k] == s[k];
    forall k | 0 <= k < |s| + 1 ensures !Opens(t, k) {
      if k + 1 < |s| { assert Opens(t, k) <==> Opens(s, k); }
    }
    assert Opens(t, |s| + 1);
    assert t[..|s| + 1] == s + "?";
    TrimFixpoint(s + "?");
  }

  /** A template is refused whose action stands right behind a bare "?", though the authority ends
      before it, the static text alone passes the check of a visit, and nothing the template puts out
      ever has another authority. */
  lemma BareDelimiterIsRefused(lib: Library, s: string, sc: string, au: string, rest: string, domains: seq<string>)
    requires Standard(lib) && domains != [] && Written(s, sc, au) && |s| == |sc| + 3 + |au| && au != ""
    requires Trimmed(s) && (forall k :: 0 <= k < |s| ==> !Opens(s, k))
    requires CheckAdvancedLinkDomain(lib, s + "?", domains)
    ensures !CheckTemplateTargetDomain(lib, BareTemplate(s, rest), domains)
    ensures forall raw: string :: PutsOut(BareTemplate(s, rest), raw) ==>
              Split(Result(raw)).Some? && Split(Result(raw)).value.authority == Some(au)
  {
    var t := s + "?";
    BareStatic(s, rest);
    assert Written(t, sc, au);
    UrlReads(t, sc, au);
    var e := |s|;
    assert t[e..] == "?";
    AcceptsExactly(lib, BareTemplate(s, rest), domains);
    AcceptedHasHost(lib, t, domains);
    forall raw: string | PutsOut(BareTemplate(s, rest), raw)
      ensures Split(Result(raw)).Some? && Split(Result(raw)).value.authority == Some(au)
    {
      StaticAuthorityKept(BareTemplate(s, rest), raw, Start(sc), e);
    }
  }

  lemma ExampleSite()
    ensures Written("https://a.com", "https", "a.com") && Trimmed("https://a.com")
    ensures forall k :: 0 <= k < |"https://a.com"| ==> !Opens("https://a.com", k)
  {
  }

  /** Spelled out. */
  lemma QueryTemplateIsRefused(lib: Library)
    requires Standard(lib) && lib.host("a.com") == Some("a.com") && lib.fine("https://a.com" + "?")
    ensures !CheckTemplateTargetDomain(lib, BareTemplate("https://a.com", ".path}}"), ["a.com"])
  {
    var s := "https://a.com";
    ExampleSite();
    assert Written(s + "?", "https", "a.com");
    UrlReads(s + "?", "https", "a.com");
    assert |"https"| == 5 && |"a.com"| == 5 && |s| == 13;
    assert MatchesPattern("a.com", "a.com");
    assert MatchesAny("a.com", ["a.com"]) by { assert ["a.com"][0] == "a.com"; }
    assert "a.com" + "" == "a.com";
    PortsDoNotMatter(lib, s + "?", "a.com", "", ["a.com"]);
    BareDelimiterIsRefused(lib, s, "https", "a.com", ".path}}", ["a.com"]);
  }
}
