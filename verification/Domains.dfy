/** Domain patterns: which hosts an entry of the allowed list covers. */
module Domains {
  import opened Text

  predicate HostChar(c: char) {
    'a' <= c <= 'z' || 'A' <= c <= 'Z' || '0' <= c <= '9' || c == '-' || c == '.'
  }

  predicate HostChars(s: string) { forall k :: 0 <= k < |s| ==> HostChar(s[k]) }

  predicate ValidHostname(s: string) { s != "" && HostChars(s) }

  predicate ValidPattern(pattern: string) {
    if "*." <= pattern then pattern[2..] != "" && !Contains(pattern[2..], '*') && ValidHostname(pattern[2..])
    else !Contains(pattern, '*') && ValidHostname(pattern)
  }

  /** After lower-casing, only lower-case letters pass in a subdomain. */
  predicate SubdomainChar(c: char) { 'a' <= c <= 'z' || '0' <= c <= '9' || c == '-' || c == '.' }

  predicate Subdomain(sub: string) { sub != "" && forall k :: 0 <= k < |sub| ==> SubdomainChar(sub[k]) }

  predicate MatchesPattern(host: string, pattern: string) {
    var h, p := ToLower(host), ToLower(pattern);
    if !("*." <= p) then h == p
    else
      var suffix := p[1..];
      && HasSuffix(h, suffix)
      && var prefix := h[..|h| - |suffix|];
         Subdomain(prefix)
  }

  predicate MatchesAny(host: string, patterns: seq<string>) {
    patterns == [] || exists k :: 0 <= k < |patterns| && MatchesPattern(host, patterns[k])
  }

  lemma LowerStar(pattern: string)
    ensures "*." <= ToLower(pattern) <==> "*." <= pattern
    ensures "*." <= pattern ==> ToLower(pattern)[1..] == "." + ToLower(pattern[2..])
  {
    if |pattern| >= 2 {
      LowerAt(pattern, 0);
      LowerAt(pattern, 1);
      LowerConcat(pattern[..2], pattern[2..]);
      assert pattern == pattern[..2] + pattern[2..];
      var l := ToLower(pattern);
      assert l == ToLower(pattern[..2]) + ToLower(pattern[2..]);
      assert "*." <= l <==> l[0] == '*' && l[1] == '.';
      assert "*." <= pattern <==> pattern[0] == '*' && pattern[1] == '.';
    }
  }

  lemma WildcardMatch(h: string, p: string, suffix: string)
    requires "*." <= p && p[1..] == suffix
    ensures HasSuffix(h, suffix) && Subdomain(h[..|h| - |suffix|]) <==>
            exists sub: string :: Subdomain(sub) && h == sub + suffix
  {
    if HasSuffix(h, suffix) && Subdomain(h[..|h| - |suffix|]) {
      assert h == h[..|h| - |suffix|] + suffix;
    }
    forall sub: string | Subdomain(sub) && h == sub + suffix ensures h[..|h| - |suffix|] == sub && HasSuffix(h, suffix) {}
  }

  /** The wildcard stands for one or more whole labels of host characters, and for nothing else:
      never for the base domain itself, never for a longer last label. */
  lemma WildcardExactly(host: string, base: string)
    ensures MatchesPattern(host, "*." + base) <==>
            exists sub: string :: Subdomain(sub) && ToLower(host) == sub + ("." + ToLower(base))
  {
    LowerStar("*." + base);
    assert ("*." + base)[2..] == base;
    WildcardMatch(ToLower(host), ToLower("*." + base), "." + ToLower(base));
  }

  /** What an entry covers: the host it spells, or every host under the one behind its star. */
  ghost predicate Covers(pattern: string, host: string) {
    if "*." <= pattern then
      exists sub: string :: Subdomain(sub) && ToLower(host) == sub + ("." + ToLower(pattern[2..]))
    else SameName(host, pattern)
  }

  lemma CoversExactly(host: string, pattern: string)
    ensures MatchesPattern(host, pattern) <==> Covers(pattern, host)
  {
    LowerStar(pattern);
    if "*." <= pattern {
      WildcardMatch(ToLower(host), ToLower(pattern), "." + ToLower(pattern[2..]));
    } else {
      LowerSame(host, pattern);
    }
  }

  /** A list lets a host through when it is empty or an entry covers it. */
  lemma ListExactly(host: string, patterns: seq<string>)
    ensures MatchesAny(host, patterns) <==> patterns == [] || exists k :: 0 <= k < |patterns| && Covers(patterns[k], host)
  {
    forall k | 0 <= k < |patterns| ensures MatchesPattern(host, patterns[k]) <==> Covers(patterns[k], host) {
      CoversExactly(host, patterns[k]);
    }
  }

  /** Behind a leading star and dot a pattern is a host name; a star elsewhere is no host character. */
  lemma PatternsExactly(pattern: string)
    ensures ValidPattern(pattern) <==> ValidHostname(if "*." <= pattern then pattern[2..] else pattern)
  {
  }

  lemma LowerHostChar(c: char)
    ensures SubdomainChar(LowerChar(c)) <==> HostChar(c)
  {
  }

  /** Whatever stands before the dot and the base is covered exactly when it is a host name itself. */
  lemma WildcardLabels(sub: string, base: string)
    ensures Covers("*." + base, sub + ("." + base)) <==> ValidHostname(sub)
  {
    var lower := ToLower(sub);
    LowerConcat(sub, "." + base);
    LowerConcat(".", base);
    assert ToLower(".") == ".";
    assert ("*." + base)[2..] == base;
    forall k | 0 <= k < |sub| ensures SubdomainChar(lower[k]) <==> HostChar(sub[k]) {
      LowerAt(sub, k);
      LowerHostChar(sub[k]);
    }
    assert Subdomain(lower) <==> ValidHostname(sub) by {
      if Subdomain(lower) { forall k | 0 <= k < |sub| ensures HostChar(sub[k]) { assert SubdomainChar(lower[k]); } }
    }
    forall x: string | lower + ("." + ToLower(base)) == x + ("." + ToLower(base)) ensures x == lower {
      SamePrefix(lower, x, "." + ToLower(base));
    }
  }

  lemma SamePrefix(a: string, b: string, c: string)
    requires a + c == b + c
    ensures a == b
  {
    assert (a + c)[..|a|] == a && (b + c)[..|b|] == b;
  }

  lemma {:induction false} HostCharsConcat(a: string, b: string)
    requires HostChars(a) && HostChars(b)
    ensures HostChars(a + b)
  {
  }

  lemma HostCharsLower(s: string)
    requires HostChars(s)
    ensures HostChars(ToLower(s))
  {
    forall k | 0 <= k < |s| ensures HostChar(ToLower(s)[k]) { LowerAt(s, k); }
  }

  lemma MatchedHostIsClean(host: string, pattern: string)
    requires ValidPattern(pattern) && MatchesPattern(host, pattern)
    ensures HostChars(ToLower(host))
  {
    var h := ToLower(host);
    LowerStar(pattern);
    if "*." <= pattern {
      var suffix := "." + ToLower(pattern[2..]);
      HostCharsLower(pattern[2..]);
      HostCharsConcat(".", ToLower(pattern[2..]));
      HostCharsConcat(h[..|h| - |suffix|], suffix);
      assert h == h[..|h| - |suffix|] + suffix;
    } else {
      HostCharsLower(pattern);
    }
  }

  /** What a valid list lets through consists of host characters only: no user information, no
      port, no separator can hide in it. */
  lemma MatchedHostsAreClean(host: string, patterns: seq<string>)
    requires patterns != [] && (forall k :: 0 <= k < |patterns| ==> ValidPattern(patterns[k])) && MatchesAny(host, patterns)
    ensures HostChars(ToLower(host))
  {
    var i :| 0 <= i < |patterns| && MatchesPattern(host, patterns[i]);
    MatchedHostIsClean(host, patterns[i]);
  }

  lemma SameLower(h: string, host: string, p: string, pattern: string)
    requires ToLower(h) == ToLower(host) && ToLower(p) == ToLower(pattern)
    ensures MatchesPattern(h, p) <==> MatchesPattern(host, pattern)
  {
  }

  lemma CaseInsensitive(host: string, pattern: string)
    ensures MatchesPattern(ToLower(host), ToLower(pattern)) <==> MatchesPattern(host, pattern)
  {
    LowerIdempotent(host);
    LowerIdempotent(pattern);
    SameLower(ToLower(host), host, ToLower(pattern), pattern);
  }
}
