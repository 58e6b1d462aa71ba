/** Name and target rules (internal/links/validate.go), and what they keep out. */
module Validate {
  import opened Text

  const RESERVED_NAMES: set<string> :=
    {"new", "edit", "details", "delete", "links", "mylinks", "help", "auth", "api", "healthz",
     "apikeys", "import", "export", "search", "static"}

  predicate NameChar(c: char) {
    'a' <= c <= 'z' || 'A' <= c <= 'Z' || '0' <= c <= '9' || c == '-' || c == '_' || c == '.'
  }

  predicate ValidName(name: string) {
    && name != ""
    && (forall k :: 0 <= k < |name| ==> NameChar(name[k]))
    && ToLower(name) !in RESERVED_NAMES
  }

  predicate ValidTarget(target: string) {
    var lower := ToLower(target);
    && target != ""
    && !("javascript:" <= lower) && !("data:" <= lower) && !("vbscript:" <= lower)
    && ("http://" <= lower || "https://" <= lower)
  }

  /** The scheme decides: the three that are refused by name are refused already for not being web schemes. */
  lemma WebTargets(target: string)
    ensures ValidTarget(target) <==> "http://" <= ToLower(target) || "https://" <= ToLower(target)
  {
    var lower := ToLower(target);
    if "http://" <= lower || "https://" <= lower { assert lower[0] == 'h'; }
  }

  lemma NameCharsCase(name: string)
    ensures (forall k :: 0 <= k < |name| ==> NameChar(ToLower(name)[k])) <==> forall k :: 0 <= k < |name| ==> NameChar(name[k])
  {
    forall k | 0 <= k < |name| ensures NameChar(ToLower(name)[k]) <==> NameChar(name[k]) { LowerAt(name, k); }
  }

  lemma NameCase(name: string)
    ensures ValidName(ToLower(name)) <==> ValidName(name)
  {
    LowerIdempotent(name);
    NameCharsCase(name);
  }

  /** A valid name is a path segment as it stands: nothing in it is a delimiter, an escape or white space. */
  lemma NamesAreSegments(name: string)
    requires ValidName(name)
    ensures !Contains(name, '/') && !Contains(name, '?') && !Contains(name, '#') && !Contains(name, '%') && Trimmed(name)
  {
    assert NameChar(name[0]) && NameChar(name[|name| - 1]);
  }

  // ---- names and routes ----------------------------------------------------------------------------

  /** The first segments of the fixed routes (internal/server/server.go). */
  const ROUTES: set<string> :=
    {"static", "favicon.ico", "healthz", "auth", "new", "details", "edit", "links", "mylinks", "help", "apikeys",
     "importexport", "reassign", "api"}

  /** Those that validation does not know of. */
  const UNRESERVED: set<string> := {"favicon.ico", "importexport", "reassign"}

  lemma ShortReserved(name: string)
    requires name in RESERVED_NAMES
    ensures |name| <= 7
  {
  }

  lemma UnreservedChars(route: string)
    requires route in UNRESERVED
    ensures |route| > 7 && forall k :: 0 <= k < |route| ==> NameChar(route[k])
  {
  }

  lemma OtherReserved(route: string)
    requires route in ROUTES && route !in UNRESERVED
    ensures route in RESERVED_NAMES
  {
  }

  /** A link can be given a name that spells a fixed route, in whatever case, for exactly three routes. */
  lemma RoutesReservedExactly(name: string)
    requires ToLower(name) in ROUTES
    ensures ValidName(name) <==> ToLower(name) in UNRESERVED
  {
    if ToLower(name) in UNRESERVED {
      UnreservedChars(ToLower(name));
      NameCharsCase(name);
      if ToLower(name) in RESERVED_NAMES { ShortReserved(ToLower(name)); }
    } else {
      OtherReserved(ToLower(name));
    }
  }
}
