/** Placeholders: `?` rewritten to `$n` for Postgres, and the listing and search queries, whose
    number of arguments varies, text against arguments. */
module Placeholders {
  import opened Text
  import opened Search

  function Digit(d: nat): char
    requires d < 10
  {
    '0' + d as char
  }

  function Decimal(n: nat): (s: string)
    ensures s != "" && forall k :: 0 <= k < |s| ==> '0' <= s[k] <= '9'
  {
    if n < 10 then [Digit(n)] else Decimal(n / 10) + [Digit(n % 10)]
  }

  function Marks(s: string): nat { if s == "" then 0 else (if s[0] == '?' then 1 else 0) + Marks(s[1..]) }

  /** The text for Postgres, when n placeholders came before it. */
  function Numbered(s: string, n: nat): string {
    if s == "" then ""
    else if s[0] == '?' then "$" + Decimal(n + 1) + Numbered(s[1..], n + 1)
    else [s[0]] + Numbered(s[1..], n)
  }

  method Q(query: string, backend: Dialect) returns (b: string)
    ensures b == if backend.Postgres? then Numbered(query, 0) else query
  {
    if backend != Postgres { return query; }
    b := "";
    var n := 0;
    for i := 0 to |query|
      invariant Numbered(query, 0) == b + Numbered(query[i..], n)
    {
      NumberedFrom(query, i, n);
      Associate(b, Turned(query[i], n), Numbered(query[i + 1..], if query[i] == '?' then n + 1 else n));
      if query[i] == '?' {
        n := n + 1;
        var place := "$" + Decimal(n);
        b := b + place;
      } else {
        b := b + [query[i]];
      }
    }
  }

  lemma Associate<T>(a: seq<T>, b: seq<T>, c: seq<T>)
    ensures a + (b + c) == a + b + c
  {
  }

  lemma NumberedFrom(query: string, i: nat, n: nat)
    requires i < |query|
    ensures Numbered(query[i..], n) ==
              Turned(query[i], n) + Numbered(query[i + 1..], if query[i] == '?' then n + 1 else n)
  {
    assert query[i..] == [query[i]] + query[i + 1..];
    NumberedCons(query[i], query[i + 1..], n);
  }

  lemma {:induction false} NumberedConcat(a: string, b: string, n: nat)
    ensures Numbered(a + b, n) == Numbered(a, n) + Numbered(b, n + Marks(a))
    decreases |a|
  {
    if a == "" {
      assert a + b == b;
    } else {
      assert (a + b)[0] == a[0] && (a + b)[1..] == a[1..] + b;
      NumberedConcat(a[1..], b, if a[0] == '?' then n + 1 else n);
    }
  }

  /** What one character turns into, after n placeholders. */
  function Turned(c: char, n: nat): string { if c == '?' then "$" + Decimal(n + 1) else [c] }

  lemma NumberedCons(c: char, tail: string, n: nat)
    ensures Numbered([c] + tail, n) == Turned(c, n) + Numbered(tail, if c == '?' then n + 1 else n)
  {
    assert ([c] + tail)[1..] == tail;
  }

  /** The k-th `?` becomes `$k`, every other character stays, in place. */
  lemma EachCharacter(head: string, c: char, tail: string)
    ensures var k := Marks(head);
            Numbered(head + ([c] + tail), 0) ==
              Numbered(head, 0) + (Turned(c, k) + Numbered(tail, if c == '?' then k + 1 else k))
  {
    NumberedConcat(head, [c] + tail, 0);
    NumberedCons(c, tail, Marks(head));
  }

  lemma {:induction false} MarksConcat(a: string, b: string)
    ensures Marks(a + b) == Marks(a) + Marks(b)
  {
    if a == "" {
      assert a + b == b;
    } else {
      assert (a + b)[0] == a[0] && (a + b)[1..] == a[1..] + b;
      MarksConcat(a[1..], b);
    }
  }

  /** Reading `$n` back, where n is the number due. */
  function Unnumbered(t: string, n: nat): string
    decreases |t|
  {
    if t == "" then ""
    else if t[0] == '$' && Decimal(n + 1) <= t[1..] then "?" + Unnumbered(t[1 + |Decimal(n + 1)|..], n + 1)
    else [t[0]] + Unnumbered(t[1..], n)
  }

  lemma UnnumberedMark(rest: string, n: nat)
    ensures Unnumbered("$" + Decimal(n + 1) + rest, n) == "?" + Unnumbered(rest, n + 1)
  {
    var d := Decimal(n + 1);
    var t := "$" + d + rest;
    assert t[0] == '$' && t[1..] == d + rest && t[1 + |d|..] == rest;
  }

  lemma UnnumberedOther(c: char, rest: string, n: nat)
    requires c != '$'
    ensures Unnumbered([c] + rest, n) == [c] + Unnumbered(rest, n)
  {
    assert ([c] + rest)[1..] == rest;
  }

  /** On texts without `$` nothing is lost, whatever digits surround the placeholders. */
  lemma {:induction false} ReadsBack(s: string, n: nat)
    requires forall k :: 0 <= k < |s| ==> s[k] != '$'
    ensures Unnumbered(Numbered(s, n), n) == s
    decreases |s|
  {
    if s != "" {
      if s[0] == '?' {
        ReadsBack(s[1..], n + 1);
        UnnumberedMark(Numbered(s[1..], n + 1), n);
      } else {
        ReadsBack(s[1..], n);
        UnnumberedOther(s[0], Numbered(s[1..], n), n);
      }
      assert s == [s[0]] + s[1..];
    }
  }

  /** With a `$` in the query two texts can collide. */
  lemma DollarsCollide()
    ensures Numbered("?", 0) == Numbered("$1", 0)
  {
    assert "?"[1..] == "" && "$1"[1..] == "1" && "1"[1..] == "";
    assert Decimal(1) == "1";
  }

  // ---- text and arguments -------------------------------------------------------------------

  /** What an argument is. */
  datatype Arg = TheOwner | ThePattern | Identifier(i: nat) | Limit | Offset

  /** A query, annotated: fixed text, and places for arguments that say what belongs there. */
  datatype Piece = Sql(text: string) | Place(arg: Arg)

  function TextOf(ps: seq<Piece>): string {
    if ps == [] then "" else (if ps[0].Sql? then ps[0].text else "?") + TextOf(ps[1..])
  }

  function ArgsOf(ps: seq<Piece>): seq<Arg> {
    if ps == [] then [] else (if ps[0].Place? then [ps[0].arg] else []) + ArgsOf(ps[1..])
  }

  predicate Fixed(ps: seq<Piece>) { forall k :: 0 <= k < |ps| && ps[k].Sql? ==> Marks(ps[k].text) == 0 }

  lemma {:induction false} PiecesConcat(a: seq<Piece>, b: seq<Piece>)
    ensures TextOf(a + b) == TextOf(a) + TextOf(b) && ArgsOf(a + b) == ArgsOf(a) + ArgsOf(b)
    decreases |a|
  {
    if a == [] {
      assert a + b == b;
    } else {
      assert (a + b)[0] == a[0] && (a + b)[1..] == a[1..] + b;
      PiecesConcat(a[1..], b);
    }
  }

  /** As many `?` as arguments; and the place whose argument is number k is the k-th `?`, so it
      is bound to that argument by position and, once numbered, by `$k`. */
  lemma {:induction false} PlacesAlign(ps: seq<Piece>, i: nat)
    requires Fixed(ps) && i < |ps|
    ensures Marks(TextOf(ps)) == |ArgsOf(ps)|
    ensures ps[i].Place? ==>
              var k := Marks(TextOf(ps[..i]));
              && k < |ArgsOf(ps)| && ArgsOf(ps)[k] == ps[i].arg
              && TextOf(ps) == TextOf(ps[..i]) + "?" + TextOf(ps[i + 1..])
  {
    var head, tail := ps[..i], ps[i + 1..];
    assert ps == head + ([ps[i]] + tail) && ([ps[i]] + tail)[1..] == tail;
    PiecesConcat(head, [ps[i]] + tail);
    MarksAreArgs(ps);
    MarksAreArgs(head);
  }

  lemma {:induction false} MarksAreArgs(ps: seq<Piece>)
    requires Fixed(ps)
    ensures Marks(TextOf(ps)) == |ArgsOf(ps)|
    decreases |ps|
  {
    if ps != [] {
      MarksAreArgs(ps[1..]);
      MarksConcat(if ps[0].Sql? then ps[0].text else "?", TextOf(ps[1..]));
      assert Marks("?") == 1;
    }
  }

  /** Numbered for Postgres, that place reads `$` and the number of its argument, counted from 1. */
  lemma PlaceReadsItsNumber(ps: seq<Piece>, i: nat)
    requires Fixed(ps) && i < |ps| && ps[i].Place?
    ensures var k := Marks(TextOf(ps[..i]));
            && k < |ArgsOf(ps)| && ArgsOf(ps)[k] == ps[i].arg
            && Numbered(TextOf(ps), 0) ==
                 Numbered(TextOf(ps[..i]), 0) + ("$" + Decimal(k + 1) + Numbered(TextOf(ps[i + 1..]), k + 1))
  {
    PlacesAlign(ps, i);
    var head, tail := TextOf(ps[..i]), TextOf(ps[i + 1..]);
    Associate(head, ['?'], tail);
    EachCharacter(head, '?', tail);
  }

  lemma ArgsBefore(ps: seq<Piece>, j: nat)
    requires j < |ps|
    ensures |ArgsOf(ps[..j + 1])| == (if ps[0].Place? then 1 else 0) + |ArgsOf(ps[1..][..j])|
  {
    assert ps[..j + 1][1..] == ps[1..][..j];
  }

  lemma {:induction false} ArgumentIsPlaced(ps: seq<Piece>, k: nat) returns (i: nat)
    requires k < |ArgsOf(ps)|
    ensures i < |ps| && ps[i].Place? && |ArgsOf(ps[..i])| == k && ArgsOf(ps)[k] == ps[i].arg
    decreases |ps|
  {
    if ps[0].Place? && k == 0 {
      i := 0;
    } else {
      var j := ArgumentIsPlaced(ps[1..], if ps[0].Place? then k - 1 else k);
      ArgsBefore(ps, j);
      i := j + 1;
    }
  }

  /** And every argument has its place. */
  lemma EveryArgumentIsPlaced(ps: seq<Piece>, k: nat) returns (i: nat)
    requires Fixed(ps) && k < |ArgsOf(ps)|
    ensures i < |ps| && ps[i].Place? && Marks(TextOf(ps[..i])) == k && ArgsOf(ps)[k] == ps[i].arg
  {
    i := ArgumentIsPlaced(ps, k);
    MarksAreArgs(ps[..i]);
  }

  // ---- the queries ------------------------------------------------------------------------------

  /** The constant stretches of a statement, counting or listing; a parenthesis that closes the match
      expression begins the stretch behind it. */
  datatype Phrases = Phrases(select: string, owned: string, and: string, union: string, notOwned: string,
                             close: string, order: string, offset: string)

  predicate PlainPhrases(f: Phrases) {
    && Marks(f.select) == 0 && Marks(f.owned) == 0 && Marks(f.and) == 0 && Marks(f.union) == 0
    && Marks(f.notOwned) == 0 && Marks(f.close) == 0 && Marks(f.order) == 0 && Marks(f.offset) == 0
  }

  function Compared(before: string, column: string): string { before + column + " LIKE " }

  /** The stretches of the match expression for a field, each before a placeholder. */
  function Columns(field: SearchField): seq<string> {
    match field
    case Name => [Compared("", "name_lower")]
    case Target => [Compared("", "LOWER(target)")]
    case AliasTarget => [Compared("", "alias_target")]
    case Owner => [Compared("", "LOWER(owner_email)")]
    case All => [Compared("(", "name_lower"), Compared(" OR ", "LOWER(target)"),
                 Compared(" OR ", "alias_target"), Compared(" OR ", "LOWER(owner_email)")]
  }

  lemma {:induction false} NoMarks(s: string)
    requires forall k :: 0 <= k < |s| ==> s[k] != '?'
    ensures Marks(s) == 0
  {
    if s != "" { NoMarks(s[1..]); }
  }

  lemma NamePlain() ensures Marks("name_lower") == 0 { NoMarks("name_lower"); }

  lemma TargetPlain() ensures Marks("LOWER(target)") == 0 { NoMarks("LOWER(target)"); }

  lemma AliasPlain() ensures Marks("alias_target") == 0 { NoMarks("alias_target"); }

  lemma OwnerPlain() ensures Marks("LOWER(owner_email)") == 0 { NoMarks("LOWER(owner_email)"); }

  lemma AroundPlain()
    ensures Marks("(") == 0 && Marks(" OR ") == 0 && Marks(" LIKE ") == 0
  {
    NoMarks("(");
    NoMarks(" OR ");
    NoMarks(" LIKE ");
  }

  lemma ComparedPlain(before: string, column: string)
    requires Marks(before) == 0 && Marks(column) == 0
    ensures Marks(Compared(before, column)) == 0
  {
    AroundPlain();
    MarksConcat(before, column);
    MarksConcat(before + column, " LIKE ");
  }

  predicate PlainColumns(columns: seq<string>) { forall k :: 0 <= k < |columns| ==> Marks(columns[k]) == 0 }

  lemma OnePlain(column: string)
    requires Marks(column) == 0
    ensures PlainColumns([Compared("", column)])
  {
    ComparedPlain("", column);
  }

  lemma FourPlain(a: string, b: string, c: string, d: string)
    requires Marks(a) == 0 && Marks(b) == 0 && Marks(c) == 0 && Marks(d) == 0
    ensures PlainColumns([Compared("(", a), Compared(" OR ", b), Compared(" OR ", c), Compared(" OR ", d)])
  {
    AroundPlain();
    ComparedPlain("(", a);
    ComparedPlain(" OR ", b);
    ComparedPlain(" OR ", c);
    ComparedPlain(" OR ", d);
  }

  /** No field's match expression has a placeholder of its own. */
  lemma ColumnsPlain(field: SearchField)
    ensures PlainColumns(Columns(field))
  {
    NamePlain();
    TargetPlain();
    AliasPlain();
    OwnerPlain();
    match field
    case Name => OnePlain("name_lower");
    case Target => OnePlain("LOWER(target)");
    case AliasTarget => OnePlain("alias_target");
    case Owner => OnePlain("LOWER(owner_email)");
    case All => FourPlain("name_lower", "LOWER(target)", "alias_target", "LOWER(owner_email)");
  }

  /** buildSearchMatchExpr: the expression and its arguments, the pattern once for each column. */
  function MatchText(columns: seq<string>): string {
    if columns == [] then "" else columns[0] + "?" + MatchText(columns[1..])
  }

  function MatchArgs(columns: seq<string>): seq<Arg> { seq(|columns|, _ => ThePattern) }

  function Repeat(s: string, n: nat): string { if n == 0 then "" else s + Repeat(s, n - 1) }

  lemma RepeatLength(n: nat)
    ensures |Repeat("?,", n)| == 2 * n
  {
  }

  /** "?,?,…,?" */
  function PlaceholderList(n: nat): string
    requires n > 0
  {
    RepeatLength(n);
    Repeat("?,", n)[..2 * n - 1]
  }

  function Identifiers(from: nat, n: nat): (args: seq<Arg>)
    requires from <= n
    ensures |args| == n - from && forall i :: 0 <= i < n - from ==> args[i] == Identifier(from + i)
    decreases n - from
  {
    if from == n then [] else [Identifier(from)] + Identifiers(from + 1, n)
  }

  /** A listing ends with its page, a count does not. */
  function TailText(f: Phrases, page: bool): string { if page then f.order + "?" + (f.offset + "?") else f.close }

  function TailArgs(page: bool): seq<Arg> { if page then [Limit, Offset] else [] }

  /** Search. */
  function SearchText(f: Phrases, columns: seq<string>, page: bool): string {
    f.select + MatchText(columns) + TailText(f, page)
  }

  function SearchArgs(columns: seq<string>, page: bool): seq<Arg> { MatchArgs(columns) + TailArgs(page) }

  /** SearchOwnedOrSharedWith, for n identifiers. */
  function OwnedSearchText(f: Phrases, columns: seq<string>, n: nat, page: bool): string {
    var expr := MatchText(columns);
    if n == 0 then f.owned + "?" + f.and + expr + TailText(f, page)
    else
      f.owned + "?" + f.and + expr
      + (f.union + PlaceholderList(n) + (f.notOwned + "?" + f.and + expr))
      + TailText(f, page)
  }

  function OwnedSearchArgs(columns: seq<string>, n: nat, page: bool): seq<Arg> {
    var ownedBranch := [TheOwner] + MatchArgs(columns);
    if n == 0 then ownedBranch + TailArgs(page)
    else
      var sharedBranch := Identifiers(0, n) + ([TheOwner] + MatchArgs(columns));
      ownedBranch + sharedBranch + TailArgs(page)
  }

  /** ListOwnedOrSharedWith, which without identifiers is ListByOwner. */
  function OwnedListText(f: Phrases, n: nat, page: bool): string {
    if n == 0 then f.owned + "?" + TailText(f, page)
    else f.owned + "?" + (f.union + PlaceholderList(n) + (f.notOwned + "?")) + TailText(f, page)
  }

  function OwnedListArgs(n: nat, page: bool): seq<Arg> {
    if n == 0 then [TheOwner] + TailArgs(page)
    else [TheOwner] + (Identifiers(0, n) + [TheOwner]) + TailArgs(page)
  }

  // ---- the same statements as they are meant ------------------------------------------------------

  function MatchPieces(columns: seq<string>): seq<Piece> {
    if columns == [] then [] else [Sql(columns[0]), Place(ThePattern)] + MatchPieces(columns[1..])
  }

  function ListPieces(from: nat, n: nat): seq<Piece>
    requires from < n
    decreases n - from
  {
    if from + 1 == n then [Place(Identifier(from))] else [Place(Identifier(from)), Sql(",")] + ListPieces(from + 1, n)
  }

  /** "… owner_email = ?", or "!= ?". */
  function OwnerPieces(phrase: string): seq<Piece> { [Sql(phrase), Place(TheOwner)] }

  function BranchPieces(phrase: string, and: string, columns: seq<string>): seq<Piece> {
    OwnerPieces(phrase) + ([Sql(and)] + MatchPieces(columns))
  }

  /** The second branch of the UNION, up to its own condition on the owner. */
  function SharedPieces(union: string, n: nat, branch: seq<Piece>): seq<Piece>
    requires n > 0
  {
    [Sql(union)] + ListPieces(0, n) + branch
  }

  function TailPieces(f: Phrases, page: bool): seq<Piece> {
    if page then [Sql(f.order), Place(Limit), Sql(f.offset), Place(Offset)] else [Sql(f.close)]
  }

  function SearchPieces(f: Phrases, columns: seq<string>, page: bool): seq<Piece> {
    [Sql(f.select)] + MatchPieces(columns) + TailPieces(f, page)
  }

  /** A statement of one branch, or of two. */
  function UnionPieces(f: Phrases, first: seq<Piece>, second: seq<Piece>, n: nat, page: bool): seq<Piece> {
    if n == 0 then first + TailPieces(f, page) else first + SharedPieces(f.union, n, second) + TailPieces(f, page)
  }

  function OwnedSearchPieces(f: Phrases, columns: seq<string>, n: nat, page: bool): seq<Piece> {
    UnionPieces(f, BranchPieces(f.owned, f.and, columns), BranchPieces(f.notOwned, f.and, columns), n, page)
  }

  function OwnedListPieces(f: Phrases, n: nat, page: bool): seq<Piece> {
    UnionPieces(f, OwnerPieces(f.owned), OwnerPieces(f.notOwned), n, page)
  }

  // ---- and they agree ---------------------------------------------------------------------------

  lemma TextOfOne(p: Piece)
    ensures TextOf([p]) == (if p.Sql? then p.text else "?") && ArgsOf([p]) == if p.Place? then [p.arg] else []
  {
    assert [p][1..] == [];
  }

  lemma TwoPieces(a: Piece, b: Piece, rest: seq<Piece>)
    ensures [a, b] + rest == [a] + ([b] + rest)
  {
  }

  lemma TextOfTwo(a: Piece, b: Piece, rest: seq<Piece>)
    ensures TextOf([a, b] + rest) == TextOf([a]) + TextOf([b]) + TextOf(rest)
    ensures ArgsOf([a, b] + rest) == ArgsOf([a]) + ArgsOf([b]) + ArgsOf(rest)
    ensures TextOf([a]) == (if a.Sql? then a.text else "?") && TextOf([b]) == (if b.Sql? then b.text else "?")
  {
    TwoPieces(a, b, rest);
    PiecesConcat([a], [b] + rest);
    PiecesConcat([b], rest);
    Associate(TextOf([a]), TextOf([b]), TextOf(rest));
    Associate(ArgsOf([a]), ArgsOf([b]), ArgsOf(rest));
    TextOfOne(a);
    TextOfOne(b);
  }

  lemma {:induction false} MatchAligns(columns: seq<string>)
    ensures TextOf(MatchPieces(columns)) == MatchText(columns) && ArgsOf(MatchPieces(columns)) == MatchArgs(columns)
    ensures PlainColumns(columns) ==> Fixed(MatchPieces(columns))
  {
    if columns != [] {
      MatchAligns(columns[1..]);
      TextOfTwo(Sql(columns[0]), Place(ThePattern), MatchPieces(columns[1..]));
    }
  }

  lemma RepeatMore(t: string, n: nat)
    requires t + "," == Repeat("?,", n)
    ensures "?" + "," + t + "," == Repeat("?,", n + 1)
  {
    assert "?" + "," + t + "," == "?," + (t + ",");
  }

  lemma ListTextMore(from: nat, n: nat)
    requires from + 1 < n
    ensures TextOf(ListPieces(from, n)) == "?" + "," + TextOf(ListPieces(from + 1, n))
  {
    TextOfTwo(Place(Identifier(from)), Sql(","), ListPieces(from + 1, n));
  }

  /** Placeholders from number `from` on, with the commas between them. */
  lemma {:induction false} ListText(from: nat, n: nat)
    requires from < n
    ensures TextOf(ListPieces(from, n)) + "," == Repeat("?,", n - from)
    decreases n - from
  {
    if from + 1 < n {
      ListText(from + 1, n);
      ListTextMore(from, n);
      RepeatMore(TextOf(ListPieces(from + 1, n)), n - from - 1);
    } else {
      TextOfOne(Place(Identifier(from)));
      assert Repeat("?,", 1) == "?," + Repeat("?,", 0);
    }
  }

  lemma {:induction false} ListArgs(from: nat, n: nat)
    requires from < n
    ensures ArgsOf(ListPieces(from, n)) == Identifiers(from, n)
    decreases n - from
  {
    if from + 1 < n {
      ListArgs(from + 1, n);
      TextOfTwo(Place(Identifier(from)), Sql(","), ListPieces(from + 1, n));
    } else {
      TextOfOne(Place(Identifier(from)));
    }
  }

  lemma {:induction false} ListFixed(from: nat, n: nat)
    requires from < n
    ensures Fixed(ListPieces(from, n))
    decreases n - from
  {
    assert Marks(",") == 0;
    if from + 1 < n { ListFixed(from + 1, n); }
  }

  lemma PlaceholdersAlign(n: nat)
    requires n > 0
    ensures TextOf(ListPieces(0, n)) == PlaceholderList(n) && ArgsOf(ListPieces(0, n)) == Identifiers(0, n)
  {
    ListText(0, n);
    ListArgs(0, n);
    RepeatLength(n);
    var t := TextOf(ListPieces(0, n));
    assert (t + ",")[..2 * n - 1] == t;
  }

  lemma OwnerAligns(phrase: string)
    ensures TextOf(OwnerPieces(phrase)) == phrase + "?" && ArgsOf(OwnerPieces(phrase)) == [TheOwner]
  {
    TextOfTwo(Sql(phrase), Place(TheOwner), []);
    assert OwnerPieces(phrase) == OwnerPieces(phrase) + [];
    assert TextOf([]) == "" && phrase + "?" + "" == phrase + "?";
  }

  lemma BranchAligns(phrase: string, and: string, columns: seq<string>)
    ensures TextOf(BranchPieces(phrase, and, columns)) == phrase + "?" + and + MatchText(columns)
    ensures ArgsOf(BranchPieces(phrase, and, columns)) == [TheOwner] + MatchArgs(columns)
  {
    OwnerAligns(phrase);
    MatchAligns(columns);
    TextOfOne(Sql(and));
    PiecesConcat([Sql(and)], MatchPieces(columns));
    PiecesConcat(OwnerPieces(phrase), [Sql(and)] + MatchPieces(columns));
  }

  lemma SharedAligns(union: string, n: nat, branch: seq<Piece>)
    requires n > 0
    ensures TextOf(SharedPieces(union, n, branch)) == union + PlaceholderList(n) + TextOf(branch)
    ensures ArgsOf(SharedPieces(union, n, branch)) == Identifiers(0, n) + ArgsOf(branch)
  {
    PlaceholdersAlign(n);
    TextOfOne(Sql(union));
    PiecesConcat([Sql(union)], ListPieces(0, n));
    PiecesConcat([Sql(union)] + ListPieces(0, n), branch);
  }

  lemma TailAligns(f: Phrases, page: bool)
    ensures TextOf(TailPieces(f, page)) == TailText(f, page) && ArgsOf(TailPieces(f, page)) == TailArgs(page)
  {
    if page {
      TextOfTwo(Sql(f.order), Place(Limit), [Sql(f.offset), Place(Offset)]);
      TextOfTwo(Sql(f.offset), Place(Offset), []);
      assert TailPieces(f, true) == [Sql(f.order), Place(Limit)] + [Sql(f.offset), Place(Offset)];
      assert [Sql(f.offset), Place(Offset)] == [Sql(f.offset), Place(Offset)] + [];
    } else {
      TextOfOne(Sql(f.close));
    }
  }

  lemma UnionAligns(f: Phrases, first: seq<Piece>, second: seq<Piece>, n: nat, page: bool)
    ensures var ps := UnionPieces(f, first, second, n, page);
            && TextOf(ps) == (if n == 0 then TextOf(first) + TailText(f, page)
                              else TextOf(first) + (f.union + PlaceholderList(n) + TextOf(second)) + TailText(f, page))
            && ArgsOf(ps) == (if n == 0 then ArgsOf(first) + TailArgs(page)
                              else ArgsOf(first) + (Identifiers(0, n) + ArgsOf(second)) + TailArgs(page))
  {
    TailAligns(f, page);
    if n == 0 {
      PiecesConcat(first, TailPieces(f, page));
    } else {
      var shared := SharedPieces(f.union, n, second);
      SharedAligns(f.union, n, second);
      PiecesConcat(first, shared);
      PiecesConcat(first + shared, TailPieces(f, page));
    }
  }

  /** For every field, counting and listing: statement and arguments of Search, put together apart,
      are those of one annotated statement. */
  lemma SearchAligns(f: Phrases, columns: seq<string>, page: bool)
    ensures TextOf(SearchPieces(f, columns, page)) == SearchText(f, columns, page)
    ensures ArgsOf(SearchPieces(f, columns, page)) == SearchArgs(columns, page)
  {
    MatchAligns(columns);
    TailAligns(f, page);
    TextOfOne(Sql(f.select));
    PiecesConcat([Sql(f.select)], MatchPieces(columns));
    PiecesConcat([Sql(f.select)] + MatchPieces(columns), TailPieces(f, page));
  }

  /** Those of SearchOwnedOrSharedWith, for any number of identifiers. */
  lemma OwnedSearchAligns(f: Phrases, columns: seq<string>, n: nat, page: bool)
    ensures TextOf(OwnedSearchPieces(f, columns, n, page)) == OwnedSearchText(f, columns, n, page)
    ensures ArgsOf(OwnedSearchPieces(f, columns, n, page)) == OwnedSearchArgs(columns, n, page)
  {
    BranchAligns(f.owned, f.and, columns);
    BranchAligns(f.notOwned, f.and, columns);
    UnionAligns(f, BranchPieces(f.owned, f.and, columns), BranchPieces(f.notOwned, f.and, columns), n, page);
  }

  /** And those of ListOwnedOrSharedWith. */
  lemma OwnedListAligns(f: Phrases, n: nat, page: bool)
    ensures TextOf(OwnedListPieces(f, n, page)) == OwnedListText(f, n, page)
    ensures ArgsOf(OwnedListPieces(f, n, page)) == OwnedListArgs(n, page)
  {
    OwnerAligns(f.owned);
    OwnerAligns(f.notOwned);
    UnionAligns(f, OwnerPieces(f.owned), OwnerPieces(f.notOwned), n, page);
  }

  // ---- so every query binds what it means ---------------------------------------------------------

  lemma FixedConcat(a: seq<Piece>, b: seq<Piece>)
    requires Fixed(a) && Fixed(b)
    ensures Fixed(a + b)
  {
  }

  lemma BranchFixed(phrase: string, and: string, columns: seq<string>)
    requires Marks(phrase) == 0 && Marks(and) == 0 && PlainColumns(columns)
    ensures Fixed(BranchPieces(phrase, and, columns))
  {
    MatchAligns(columns);
    FixedConcat([Sql(and)], MatchPieces(columns));
    FixedConcat(OwnerPieces(phrase), [Sql(and)] + MatchPieces(columns));
  }

  lemma UnionFixed(f: Phrases, first: seq<Piece>, second: seq<Piece>, n: nat, page: bool)
    requires PlainPhrases(f) && Fixed(first) && Fixed(second)
    ensures Fixed(UnionPieces(f, first, second, n, page))
  {
    if n == 0 {
      FixedConcat(first, TailPieces(f, page));
    } else {
      ListFixed(0, n);
      FixedConcat([Sql(f.union)], ListPieces(0, n));
      FixedConcat([Sql(f.union)] + ListPieces(0, n), second);
      FixedConcat(first, SharedPieces(f.union, n, second));
      FixedConcat(first + SharedPieces(f.union, n, second), TailPieces(f, page));
    }
  }

  lemma SearchFixed(f: Phrases, columns: seq<string>, page: bool)
    requires PlainPhrases(f) && PlainColumns(columns)
    ensures Fixed(SearchPieces(f, columns, page))
  {
    MatchAligns(columns);
    FixedConcat([Sql(f.select)], MatchPieces(columns));
    FixedConcat([Sql(f.select)] + MatchPieces(columns), TailPieces(f, page));
  }

  lemma OwnedSearchFixed(f: Phrases, columns: seq<string>, n: nat, page: bool)
    requires PlainPhrases(f) && PlainColumns(columns)
    ensures Fixed(OwnedSearchPieces(f, columns, n, page))
  {
    BranchFixed(f.owned, f.and, columns);
    BranchFixed(f.notOwned, f.and, columns);
    UnionFixed(f, BranchPieces(f.owned, f.and, columns), BranchPieces(f.notOwned, f.and, columns), n, page);
  }

  /** No `?` in any query but its places: PlaceReadsItsNumber and EveryArgumentIsPlaced hold of every
      one, whatever field is searched and however many identifiers there are. */
  lemma QueriesFixed(f: Phrases, field: SearchField, n: nat, page: bool)
    requires PlainPhrases(f)
    ensures Fixed(SearchPieces(f, Columns(field), page))
    ensures Fixed(OwnedSearchPieces(f, Columns(field), n, page))
    ensures Fixed(OwnedListPieces(f, n, page))
  {
    var columns := Columns(field);
    ColumnsPlain(field);
    SearchFixed(f, columns, page);
    OwnedSearchFixed(f, columns, n, page);
    UnionFixed(f, OwnerPieces(f.owned), OwnerPieces(f.notOwned), n, page);
  }

  /** Each query has as many placeholders as arguments. */
  lemma QueriesBalance(f: Phrases, field: SearchField, n: nat, page: bool)
    requires PlainPhrases(f)
    ensures Marks(SearchText(f, Columns(field), page)) == |SearchArgs(Columns(field), page)|
    ensures Marks(OwnedSearchText(f, Columns(field), n, page)) == |OwnedSearchArgs(Columns(field), n, page)|
    ensures Marks(OwnedListText(f, n, page)) == |OwnedListArgs(n, page)|
  {
    var columns := Columns(field);
    QueriesFixed(f, field, n, page);
    SearchAligns(f, columns, page);
    OwnedSearchAligns(f, columns, n, page);
    OwnedListAligns(f, n, page);
    MarksAreArgs(SearchPieces(f, columns, page));
    MarksAreArgs(OwnedSearchPieces(f, columns, n, page));
    MarksAreArgs(OwnedListPieces(f, n, page));
  }
}
