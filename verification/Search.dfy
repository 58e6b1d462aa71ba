/** From a search box to SQL LIKE: what the query syntax means and what its pattern matches. */
module Search {
  import opened Text
  import opened LinkStore

  // ---- LIKE ----------------------------------------------------------------------------------

  /** SQLite folds ASCII case and has no escape character; Postgres is exact and escapes with a
      backslash. */
  datatype Dialect = SQLite | Postgres

  predicate SameChar(a: char, b: char, d: Dialect) {
    if d.SQLite? then LowerChar(a) == LowerChar(b) else a == b
  }

  predicate Like(p: string, t: string, d: Dialect)
    decreases |p| + |t|
  {
    if p == "" then t == ""
    else if p[0] == '%' then Like(p[1..], t, d) || (t != "" && Like(p, t[1..], d))
    else if t == "" then false
    else if p[0] == '_' then Like(p[1..], t[1..], d)
    else if p[0] == '\\' && d.Postgres? then |p| > 1 && p[1] == t[0] && Like(p[2..], t[1..], d)
    else SameChar(p[0], t[0], d) && Like(p[1..], t[1..], d)
  }

  // ---- the query syntax ----------------------------------------------------------------------

  datatype SearchField = All | Name | Target | AliasTarget | Owner

  function SplitField(q: string): (SearchField, string) {
    if "name:" <= q then (Name, q[5..])
    else if "n:" <= q then (Name, q[2..])
    else if "target:" <= q then (Target, q[7..])
    else if "t:" <= q then (Target, q[2..])
    else if "alias:" <= q then (AliasTarget, q[6..])
    else if "a:" <= q then (AliasTarget, q[2..])
    else if "owner:" <= q then (Owner, q[6..])
    else if "o:" <= q then (Owner, q[2..])
    else (All, q)
  }

  /** A search text and where it is anchored. */
  datatype Needle = Needle(text: string, start: bool, end: bool)

  function CutAnchors(s: string): Needle {
    var start := s != "" && s[0] == '^';
    var q := if start then s[1..] else s;
    var end := q != "" && q[|q| - 1] == '$';
    Needle(if end then q[..|q| - 1] else q, start, end)
  }

  function PatternOf(n: Needle): (p: string)
    ensures |p| == |n.text| + (if n.start then 0 else 1) + if n.end then 0 else 1
  {
    (if n.start then "" else "%") + n.text + (if n.end then "" else "%")
  }

  function ParseSearchQuery(query: string): (SearchField, string) {
    var (field, q) := SplitField(query);
    (field, PatternOf(CutAnchors(ToLower(q))))
  }

  /** buildSearchMatchExpr: the columns a pattern is compared with. */
  predicate Matches(field: SearchField, pattern: string, l: Link, d: Dialect) {
    match field
    case Name => Like(pattern, l.nameLower, d)
    case Target => Like(pattern, ToLower(l.target), d)
    case AliasTarget => Like(pattern, l.aliasTarget, d)
    case Owner => Like(pattern, ToLower(l.owner), d)
    case All =>
      || Like(pattern, l.nameLower, d) || Like(pattern, ToLower(l.target), d)
      || Like(pattern, l.aliasTarget, d) || Like(pattern, ToLower(l.owner), d)
  }

  /** WHERE: the rows of a listing whose columns match. */
  function Selected(rows: set<Link>, field: SearchField, pattern: string, d: Dialect): set<Link> {
    set l | l in rows && Matches(field, pattern, l, d)
  }

  function Hits(rows: set<Link>, query: string, d: Dialect): set<Link> {
    var (field, pattern) := ParseSearchQuery(query);
    Selected(rows, field, pattern, d)
  }

  lemma SelectedUnion(a: set<Link>, b: set<Link>, field: SearchField, pattern: string, d: Dialect)
    ensures Selected(a + b, field, pattern, d) == Selected(a, field, pattern, d) + Selected(b, field, pattern, d)
    ensures b == {} ==> Selected(a + b, field, pattern, d) == Selected(a, field, pattern, d)
  {
  }

  // ---- what a query is for, as the help page has it ------------------------------------------

  predicate Substring(n: string, t: string) { exists k :: 0 <= k <= |t| && n <= t[k..] }

  predicate Meets(n: Needle, t: string) {
    if n.start && n.end then t == n.text
    else if n.start then n.text <= t
    else if n.end then HasSuffix(t, n.text)
    else Substring(n.text, t)
  }

  predicate Wanted(field: SearchField, n: Needle, l: Link) {
    match field
    case Name => Meets(n, ToLower(l.name))
    case Target => Meets(n, ToLower(l.target))
    case AliasTarget => Meets(n, l.aliasTarget)
    case Owner => Meets(n, ToLower(l.owner))
    case All =>
      || Meets(n, ToLower(l.name)) || Meets(n, ToLower(l.target))
      || Meets(n, l.aliasTarget) || Meets(n, ToLower(l.owner))
  }

  /** How a search is typed. */
  function Typed(prefix: string, n: Needle): string {
    prefix + (if n.start then "^" else "") + n.text + (if n.end then "$" else "")
  }

  function Lowered(n: Needle): Needle { n.(text := ToLower(n.text)) }

  /** The prefixes on offer; the empty one searches everywhere. */
  predicate Prefix(p: string, f: SearchField) {
    match f
    case All => p == ""
    case Name => p == "name:" || p == "n:"
    case Target => p == "target:" || p == "t:"
    case AliasTarget => p == "alias:" || p == "a:"
    case Owner => p == "owner:" || p == "o:"
  }

  // ---- every query parses back to what it was written from ------------------------------------

  lemma PrefixReads(p: string, f: SearchField, rest: string)
    requires Prefix(p, f) && !f.All?
    ensures SplitField(p + rest) == (f, rest)
  {
    var q := p + rest;
    assert q[0] == p[0] && q[1] == p[1];
    assert q[..|p|] == p && q[|p|..] == rest;
  }

  lemma SplitTyped(p: string, f: SearchField, n: Needle)
    requires Prefix(p, f)
    ensures !f.All? || SplitField(Typed("", n)).0.All? ==> SplitField(Typed(p, n)) == (f, Typed("", n))
    ensures f.All? ==> Typed(p, n) == Typed("", n)
  {
    var rest := Typed("", n);
    assert Typed(p, n) == p + rest;
    if !f.All? { PrefixReads(p, f, rest); } else { assert p + rest == rest; }
  }

  /** No unanchored end of the needle looks like an anchor. */
  predicate AnchorFree(n: Needle) {
    && (!n.start && n.text != "" ==> n.text[0] != '^')
    && (!n.end && n.text != "" ==> n.text[|n.text| - 1] != '$')
  }

  /** Anchors read back unless an unanchored end of the needle looks like one. */
  lemma AnchorsReadBack(n: Needle)
    ensures AnchorFree(n) ==> CutAnchors(Typed("", n)) == n
    ensures !AnchorFree(n) ==> |PatternOf(CutAnchors(Typed("", n)))| < |PatternOf(n)|
  {
    var s := Typed("", n);
    var t := n.text + if n.end then "$" else "";
    assert s == (if n.start then "^" else "") + t;
    if n.start { assert s[1..] == t; } else { assert s == t; }
    if n.end { assert t[..|t| - 1] == n.text; }
  }

  lemma LowerThree(a: string, b: string, c: string)
    ensures ToLower(a + b + c) == ToLower(a) + ToLower(b) + ToLower(c)
  {
    LowerConcat(a + b, c);
    LowerConcat(a, b);
  }

  lemma LowerAnchors()
    ensures ToLower("") == "" && ToLower("^") == "^" && ToLower("$") == "$"
  {
    assert "^"[1..] == "" && "$"[1..] == "";
  }

  lemma LowerTyped(n: Needle)
    ensures ToLower(Typed("", n)) == Typed("", Lowered(n))
  {
    var a, b := if n.start then "^" else "", if n.end then "$" else "";
    LowerAnchors();
    LowerThree(a, n.text, b);
    assert Typed("", n) == a + n.text + b;
    assert Typed("", Lowered(n)) == a + ToLower(n.text) + b;
  }

  lemma LoweredReadsBack(n: Needle)
    ensures PatternOf(CutAnchors(ToLower(Typed("", n)))) == PatternOf(Lowered(n)) <==> AnchorFree(n)
  {
    LowerTyped(n);
    AnchorsReadBack(Lowered(n));
    if n.text != "" {
      LowerAt(n.text, 0);
      LowerAt(n.text, |n.text| - 1);
    }
  }

  /** A typed query is read as it was meant, prefix, anchors and needle, exactly when the needle
      does not itself look like an anchor where it has none, nor the whole like a prefix where
      there is none. */
  lemma QueryReadsBack(p: string, f: SearchField, n: Needle)
    requires Prefix(p, f)
    ensures ParseSearchQuery(Typed(p, n)) == (f, PatternOf(Lowered(n))) <==>
              AnchorFree(n) && (f.All? ==> SplitField(Typed("", n)).0.All?)
  {
    SplitTyped(p, f, n);
    LoweredReadsBack(n);
  }

  // ---- what the pattern matches ----------------------------------------------------------------

  predicate Plain(c: char, d: Dialect) { c != '%' && c != '_' && (d.Postgres? ==> c != '\\') }

  /** No character with a meaning of its own in LIKE. */
  predicate WildFree(n: string, d: Dialect) { forall k :: 0 <= k < |n| ==> Plain(n[k], d) }

  lemma {:induction false} LikeLiteral(n: string, rest: string, t: string, d: Dialect)
    requires WildFree(n, d) && LowerText(n) && LowerText(t)
    ensures Like(n + rest, t, d) <==> n <= t && Like(rest, t[|n|..], d)
  {
    if n == "" {
      assert n + rest == rest;
    } else {
      assert (n + rest)[0] == n[0] && (n + rest)[1..] == n[1..] + rest;
      if t != "" {
        LikeLiteral(n[1..], rest, t[1..], d);
        assert t == [t[0]] + t[1..] && n == [n[0]] + n[1..];
        if n <= t { assert t[1..][|n| - 1..] == t[|n|..]; }
      }
    }
  }

  lemma {:induction false} LikeAnything(t: string, d: Dialect)
    ensures Like("%", t, d)
  {
    assert "%"[1..] == "";
    if t != "" { LikeAnything(t[1..], d); }
  }

  lemma {:induction false} LikeSomewhere(p: string, t: string, d: Dialect)
    ensures Like("%" + p, t, d) <==> exists k :: 0 <= k <= |t| && Like(p, t[k..], d)
    decreases |t|
  {
    assert ("%" + p)[1..] == p && t[0..] == t;
    if t != "" {
      LikeSomewhere(p, t[1..], d);
      if k :| 0 <= k <= |t[1..]| && Like(p, t[1..][k..], d) { assert t[1..][k..] == t[k + 1..]; }
      if k :| 0 < k <= |t| && Like(p, t[k..], d) { assert t[1..][k - 1..] == t[k..]; }
    }
  }

  /** The tail of a pattern, from the needle on. */
  lemma NeedleThen(n: Needle, t: string, d: Dialect)
    requires WildFree(n.text, d) && LowerText(n.text) && LowerText(t)
    ensures Like(n.text + if n.end then "" else "%", t, d) <==> if n.end then t == n.text else n.text <= t
  {
    var rest := if n.end then "" else "%";
    LikeLiteral(n.text, rest, t, d);
    if n.text <= t { LikeAnything(t[|n.text|..], d); }
  }

  /** For needles without wildcards the pattern matches what the anchors say. */
  lemma PatternMeets(n: Needle, t: string, d: Dialect)
    requires WildFree(n.text, d) && LowerText(n.text) && LowerText(t)
    ensures Like(PatternOf(n), t, d) <==> Meets(n, t)
  {
    var tail := n.text + if n.end then "" else "%";
    if n.start {
      assert PatternOf(n) == tail;
      NeedleThen(n, t, d);
    } else {
      assert PatternOf(n) == "%" + tail;
      LikeSomewhere(tail, t, d);
      forall k | 0 <= k <= |t|
        ensures Like(tail, t[k..], d) <==> if n.end then t[k..] == n.text else n.text <= t[k..]
      {
        NeedleThen(n, t[k..], d);
      }
      if n.end && HasSuffix(t, n.text) { assert t[|t| - |n.text|..] == n.text; }
    }
  }

  /** A query whose needle holds no wildcard and looks like no anchor or prefix. */
  predicate Clear(p: string, f: SearchField, n: Needle, d: Dialect) {
    Prefix(p, f) && WildFree(n.text, d) && AnchorFree(n) && (f.All? ==> SplitField(Typed("", n)).0.All?)
  }

  /** Search does what the help page promises: on every link, for every field, anchors and
      needle without wildcards, on either database. */
  lemma SearchMeansHelp(p: string, f: SearchField, n: Needle, l: Link, d: Dialect)
    requires Clear(p, f, n, d)
    requires l.nameLower == ToLower(l.name) && IsLower(l.aliasTarget)
    ensures var (field, pattern) := ParseSearchQuery(Typed(p, n));
            Matches(field, pattern, l, d) <==> Wanted(f, Lowered(n), l)
  {
    QueryReadsBack(p, f, n);
    var m := Lowered(n);
    LowerIdempotent(n.text);
    IsLowerText(m.text);
    forall k | 0 <= k < |m.text| ensures Plain(m.text[k], d) { LowerAt(n.text, k); }
    ColumnMeets(m, l.name, d);
    ColumnMeets(m, l.target, d);
    ColumnMeets(m, l.owner, d);
    IsLowerText(l.aliasTarget);
    PatternMeets(m, l.aliasTarget, d);
  }

  lemma ColumnMeets(n: Needle, column: string, d: Dialect)
    requires WildFree(n.text, d) && LowerText(n.text)
    ensures Like(PatternOf(n), ToLower(column), d) <==> Meets(n, ToLower(column))
  {
    LowerIdempotent(column);
    IsLowerText(ToLower(column));
    PatternMeets(n, ToLower(column), d);
  }

  predicate RowsLower(rows: set<Link>) {
    forall l :: l in rows ==> l.nameLower == ToLower(l.name) && IsLower(l.aliasTarget)
  }

  /** The rows that a searcher asks for. */
  function WantedOf(rows: set<Link>, f: SearchField, n: Needle): set<Link> {
    set l | l in rows && Wanted(f, Lowered(n), l)
  }

  /** Those are the hits, and no others. */
  lemma HitsAreWanted(rows: set<Link>, p: string, f: SearchField, n: Needle, d: Dialect)
    requires Clear(p, f, n, d) && RowsLower(rows)
    ensures Hits(rows, Typed(p, n), d) == WantedOf(rows, f, n)
  {
    forall l | l in rows ensures l in Hits(rows, Typed(p, n), d) <==> l in WantedOf(rows, f, n) {
      SearchMeansHelp(p, f, n, l, d);
    }
  }

  // ---- and when it does not ------------------------------------------------------------------

  /** A short text that the pattern of `n` matches, wildcards taken as wildcards. */
  function Sample(n: string, d: Dialect): (t: string)
    ensures |t| <= |n| && (LowerText(n) ==> LowerText(t))
  {
    if n == "" then ""
    else if n[0] == '%' || n[0] == '_' then "a" + Sample(n[1..], d)
    else if n[0] == '\\' && d.Postgres? then
      if |n| == 1 then "%" else [n[1]] + Sample(n[2..], d)
    else [n[0]] + Sample(n[1..], d)
  }

  lemma {:induction false} SampleMatches(n: string, d: Dialect)
    ensures Like(n + "%", Sample(n, d), d)
    decreases |n|
  {
    var p, t := n + "%", Sample(n, d);
    if n == "" {
      assert p == "%";
      LikeAnything(t, d);
    } else if n[0] == '\\' && d.Postgres? {
      if |n| == 1 {
        assert p == "\\%" && p[2..] == "" && t[1..] == "";
      } else {
        SampleMatches(n[2..], d);
        assert p[2..] == n[2..] + "%" && t[1..] == Sample(n[2..], d);
      }
    } else {
      SampleMatches(n[1..], d);
      assert p[1..] == n[1..] + "%" && t[1..] == Sample(n[1..], d);
      if n[0] == '%' { assert Like(p[1..], t[1..], d) ==> Like(p, t[1..], d); }
    }
  }

  lemma {:induction false} SampleDiffers(n: string, d: Dialect)
    ensures Sample(n, d) == n <==> WildFree(n, d)
    decreases |n|
  {
    if n != "" {
      SampleDiffers(n[1..], d);
      var t := Sample(n, d);
      assert n == [n[0]] + n[1..];
      if Plain(n[0], d) {
        assert t[1..] == Sample(n[1..], d);
        assert WildFree(n, d) <==> WildFree(n[1..], d);
      } else {
        assert !WildFree(n, d);
      }
    }
  }

  /** The escape character with nothing behind it, at the end of a pattern. */
  predicate LoneEscape(n: string, d: Dialect)
    decreases |n|
  {
    n != "" &&
      if n[0] == '\\' && d.Postgres? then |n| == 1 || LoneEscape(n[2..], d) else LoneEscape(n[1..], d)
  }

  /** A pattern that ends so matches nothing at all. */
  lemma {:induction false} LoneEscapeMatchesNothing(n: string, t: string, d: Dialect)
    requires LoneEscape(n, d)
    ensures !Like(n, t, d)
    decreases |n| + |t|
  {
    if n[0] == '%' {
      LoneEscapeMatchesNothing(n[1..], t, d);
      if t != "" { LoneEscapeMatchesNothing(n, t[1..], d); }
    } else if t != "" {
      if n[0] == '\\' && d.Postgres? {
        if |n| > 1 { LoneEscapeMatchesNothing(n[2..], t[1..], d); }
      } else {
        LoneEscapeMatchesNothing(n[1..], t[1..], d);
      }
    }
  }

  /** Otherwise the whole pattern matches its sample. */
  lemma {:induction false} SampleFits(n: string, d: Dialect)
    requires !LoneEscape(n, d)
    ensures Like(n, Sample(n, d), d)
    decreases |n|
  {
    var t := Sample(n, d);
    if n != "" {
      if n[0] == '\\' && d.Postgres? {
        SampleFits(n[2..], d);
        assert t[1..] == Sample(n[2..], d);
      } else {
        SampleFits(n[1..], d);
        assert t[1..] == Sample(n[1..], d);
        if n[0] == '%' { assert Like(n[1..], t[1..], d) ==> Like(n, t[1..], d); }
      }
    }
  }

  /** A pattern behind a percent sign matches what it matches itself. */
  lemma AnchoredElsewhere(p: string, t: string, d: Dialect)
    ensures Like(p, t, d) ==> Like("%" + p, t, d)
    ensures LoneEscape(p, d) ==> !Like("%" + p, t, d)
  {
    LikeSomewhere(p, t, d);
    assert t[0..] == t;
    if LoneEscape(p, d) {
      forall k | 0 <= k <= |t| ensures !Like(p, t[k..], d) { LoneEscapeMatchesNothing(p, t[k..], d); }
    }
  }

  /** A text on which a needle with wildcards goes wrong. */
  function Witness(n: Needle, d: Dialect): string {
    if n.end && LoneEscape(n.text, d) then n.text else Sample(n.text, d)
  }

  lemma NeedleMeetsItself(n: Needle)
    ensures Meets(n, n.text)
  {
    assert n.text[0..] == n.text;
  }

  /** Of the texts no longer than the needle only the needle itself meets it. */
  lemma ShortTextsMeet(n: Needle, t: string)
    requires |t| <= |n.text| && Meets(n, t)
    ensures t == n.text
  {
    if !n.start && !n.end {
      var k :| 0 <= k <= |t| && n.text <= t[k..];
      assert k == 0 && t[0..] == t;
    } else if !n.start {
      assert t[0..] == t;
    }
  }

  lemma WitnessOpen(n: Needle, d: Dialect)
    requires !n.end
    ensures Like(PatternOf(n), Sample(n.text, d), d)
  {
    var t := Sample(n.text, d);
    SampleMatches(n.text, d);
    AnchoredElsewhere(n.text + "%", t, d);
    if n.start { assert PatternOf(n) == n.text + "%"; } else { assert PatternOf(n) == "%" + (n.text + "%"); }
  }

  lemma WitnessClosed(n: Needle, d: Dialect)
    requires n.end
    ensures Like(PatternOf(n), Witness(n, d), d) <==> !LoneEscape(n.text, d)
  {
    var t := Witness(n, d);
    if LoneEscape(n.text, d) { LoneEscapeMatchesNothing(n.text, t, d); } else { SampleFits(n.text, d); }
    AnchoredElsewhere(n.text, t, d);
    if n.start { assert PatternOf(n) == n.text; } else { assert PatternOf(n) == "%" + n.text; }
  }

  /** A search finds the texts that its anchors and needle ask for, and no others, exactly for the
      needles without wildcards: the syntax has no way to search for those characters. */
  lemma PatternMeetsExactly(n: Needle, d: Dialect)
    requires LowerText(n.text)
    ensures (forall t: string :: LowerText(t) ==> (Like(PatternOf(n), t, d) <==> Meets(n, t))) <==> WildFree(n.text, d)
  {
    if WildFree(n.text, d) {
      forall t: string | LowerText(t) ensures Like(PatternOf(n), t, d) <==> Meets(n, t) { PatternMeets(n, t, d); }
    } else {
      var t := Witness(n, d);
      SampleDiffers(n.text, d);
      NeedleMeetsItself(n);
      assert !Meets(n, Sample(n.text, d)) by {
        if Meets(n, Sample(n.text, d)) { ShortTextsMeet(n, Sample(n.text, d)); }
      }
      if n.end { WitnessClosed(n, d); } else { WitnessOpen(n, d); }
      assert LowerText(t) && (Like(PatternOf(n), t, d) <==> !Meets(n, t));
    }
  }
}
