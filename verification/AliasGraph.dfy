/** The graph that alias rows draw on the table, and what SetAlias does to it. */
module AliasGraph {
  import opened Common
  import opened Text
  import opened LinkStore

  /** One hop is always enough: the row an alias names, when there is one, is no alias. */
  ghost predicate Flat(rows: Rows) {
    forall i, j :: (i in rows && j in rows && rows[i].linkType.Alias? && rows[j].nameLower == rows[i].aliasTarget)
                   ==> !rows[j].linkType.Alias?
  }

  /** No alias dangles. */
  ghost predicate Closed(rows: Rows) {
    forall i :: i in rows && rows[i].linkType.Alias? ==> Taken(rows, rows[i].aliasTarget)
  }

  function AliasesOf(rows: Rows, n: string): set<int> {
    set i | i in rows && rows[i].linkType.Alias? && rows[i].aliasTarget == n
  }

  /** Where a name leads: nowhere, round in circles, or to a row. */
  datatype Resolution = Missing | Cycle | Row(id: int)

  /** What a redirect does: follow an alias exactly once, whatever it finds there. */
  ghost function OneHop(rows: Rows, n: string): Resolution {
    match Find(rows, n)
    case None => Missing
    case Some(l) =>
      if !l.linkType.Alias? then Row(l.id)
      else match Find(rows, l.aliasTarget)
           case None => Missing
           case Some(c) => Row(c.id)
  }

  /** What an alias ought to mean: follow aliases until a row that is none. */
  ghost function Chase(rows: Rows, n: string, seen: set<int>): Resolution
    requires Indexed(rows)
    decreases rows.Keys - seen
  {
    match Find(rows, n)
    case None => Missing
    case Some(l) =>
      if !l.linkType.Alias? then Row(l.id)
      else if l.id in seen then Cycle
      else
        assert l.id in rows.Keys - seen;
        Chase(rows, l.aliasTarget, seen + {l.id})
  }

  lemma {:induction false} FlatMeansOneHop(rows: Rows, n: string)
    requires Indexed(rows) && Flat(rows)
    ensures OneHop(rows, n) == Chase(rows, n, {})
  {
    match Find(rows, n)
    case None =>
    case Some(l) =>
      if l.linkType.Alias? {
        var two := Chase(rows, l.aliasTarget, {} + {l.id});
      }
  }

  // ---- resolveAliasTarget --------------------------------------------------------------

  datatype ResolveError = SelfAlias | NoSuchTarget | Circular | NoSuchCanonical

  /** At most one hop from the requested target; `self` is "" for a new alias. */
  ghost function Resolve(rows: Rows, target: string, self: string): Result<string, ResolveError> {
    if target == self && self != "" then Failure(SelfAlias)
    else
      match Find(rows, target)
      case None => Failure(NoSuchTarget)
      case Some(l) =>
        if !l.linkType.Alias? then Success(target)
        else if l.aliasTarget == self && self != "" then Failure(Circular)
        else if Find(rows, l.aliasTarget).None? then Failure(NoSuchCanonical)
        else Success(l.aliasTarget)
  }

  /** The graph the user asked for: only the edited link moves, to exactly what was typed. */
  function Redirected(rows: Rows, id: int, target: string): Rows
    requires id in rows
  {
    rows[id := rows[id].(linkType := Alias, aliasTarget := target)]
  }

  /** Two tables with the same names find the same rows. */
  lemma SameNamesFind(a: Rows, b: Rows, n: string)
    requires Indexed(a) && Indexed(b) && a.Keys == b.Keys && forall i :: i in a ==> b[i].nameLower == a[i].nameLower
    ensures Find(a, n).None? <==> Find(b, n).None?
    ensures Find(a, n).Some? ==> Find(a, n).value.id in a && Find(b, n).value == b[Find(a, n).value.id]
  {
    if Taken(a, n) {
      var i := Find(a, n).value.id;
      assert b[i].nameLower == n;
      FindRow(b, i);
    }
    if i :| i in b && b[i].nameLower == n { assert a[i].nameLower == n; }
  }

  lemma FindRedirected(rows: Rows, id: int, target: string, n: string)
    requires Indexed(rows) && id in rows
    ensures Indexed(Redirected(rows, id, target))
    ensures Find(rows, n).None? <==> Find(Redirected(rows, id, target), n).None?
    ensures Find(rows, n).Some? ==>
              Find(rows, n).value.id in rows
              && Find(Redirected(rows, id, target), n).value == Redirected(rows, id, target)[Find(rows, n).value.id]
  {
    var r := Redirected(rows, id, target);
    forall i | i in rows ensures i in r && r[i].nameLower == rows[i].nameLower {}
    SameNamesFind(rows, r, n);
  }

  /** In a flat table the single hop of resolveAliasTarget decides the question it stands for:
      it accepts exactly when the requested redirection leads somewhere, and returns the name
      of the row at the end, an existing non-alias other than the edited link. */
  lemma ResolveExact(rows: Rows, id: int, target: string)
    requires Indexed(rows) && Flat(rows) && id in rows && rows[id].nameLower != ""
    ensures Indexed(Redirected(rows, id, target))
    ensures var self := rows[id].nameLower;
            var end := Chase(Redirected(rows, id, target), self, {});
            match Resolve(rows, target, self)
            case Failure(_) => !end.Row?
            case Success(to) =>
              && Find(rows, to).Some? && !Find(rows, to).value.linkType.Alias? && to != self
              && end == Row(Find(rows, to).value.id)
  {
    var self, r := rows[id].nameLower, Redirected(rows, id, target);
    FindRow(rows, id);
    FindRedirected(rows, id, target, self);
    FindRedirected(rows, id, target, target);
    assert Chase(r, self, {}) == Chase(r, target, {} + {id});
    if Find(rows, target).Some? && target != self {
      var l := Find(rows, target).value;
      if l.linkType.Alias? {
        FindRedirected(rows, id, target, l.aliasTarget);
        var seen := {} + {id} + {l.id};
        assert Chase(r, target, {} + {id}) == Chase(r, l.aliasTarget, seen);
      }
    }
  }

  /** A name the link `self` may point at in a flat table: neither its own nor that of an alias. */
  ghost predicate Canonical(rows: Rows, to: string, self: string) {
    to != self && (Find(rows, to).Some? ==> !Find(rows, to).value.linkType.Alias?)
  }

  // ---- SetAlias ------------------------------------------------------------------------

  /** What every caller of SetAlias passes: the link's own name, possibly in another case. */
  ghost predicate EditsTo(db: Db, id: int, name: string, to: string, auth: bool, maxAliases: int, after: Db) {
    && Indexed(db.rows) && id in db.rows && ToLower(name) == db.rows[id].nameLower
    && SetAliasSpec(db, id, name, to, auth, maxAliases) == Success(after)
  }

  lemma NamesAfterSetAlias(db: Db, id: int, name: string, to: string, auth: bool, maxAliases: int, after: Db)
    requires EditsTo(db, id, name, to, auth, maxAliases, after)
    ensures Indexed(after.rows) && after.rows.Keys == db.rows.Keys
    ensures forall i :: i in db.rows ==> after.rows[i].nameLower == db.rows[i].nameLower
  {
    forall i | i in db.rows ensures after.rows[i].nameLower == db.rows[i].nameLower && after.rows[i].id == i {}
  }

  lemma AfterSetAlias(db: Db, id: int, name: string, to: string, auth: bool, maxAliases: int, after: Db, n: string)
    requires EditsTo(db, id, name, to, auth, maxAliases, after)
    ensures Indexed(after.rows)
    ensures Find(db.rows, n).None? <==> Find(after.rows, n).None?
    ensures Find(db.rows, n).Some? ==>
              Find(db.rows, n).value.id in db.rows
              && Find(after.rows, n).value == after.rows[Find(db.rows, n).value.id]
  {
    NamesAfterSetAlias(db, id, name, to, auth, maxAliases, after);
    SameNamesFind(db.rows, after.rows, n);
  }

  /** Reparenting is path compression: after a guarded SetAlias, one hop from any name at all
      lands where following the chain would in the graph the user asked for. */
  lemma PathCompression(db: Db, id: int, name: string, target: string, to: string, auth: bool, maxAliases: int, after: Db,
                        n: string)
    requires EditsTo(db, id, name, to, auth, maxAliases, after) && Flat(db.rows)
    requires db.rows[id].nameLower != ""
    requires Resolve(db.rows, target, db.rows[id].nameLower) == Success(to)
    ensures Indexed(Redirected(db.rows, id, target))
    ensures OneHop(after.rows, n) == Chase(Redirected(db.rows, id, target), n, {})
  {
    ResolveExact(db.rows, id, target);
    FindRow(db.rows, id);
    AfterSetAlias(db, id, name, to, auth, maxAliases, after, n);
    FindRedirected(db.rows, id, target, n);
    if Find(db.rows, n).Some? {
      var l := Find(db.rows, n).value;
      if l.id == id {
        AfterSetAlias(db, id, name, to, auth, maxAliases, after, to);
      } else if l.linkType.Alias? {
        PathFromAlias(db, id, name, target, to, auth, maxAliases, after, l.id);
      }
    }
  }

  /** The same, from an alias other than the edited link. */
  lemma PathFromAlias(db: Db, id: int, name: string, target: string, to: string, auth: bool, maxAliases: int, after: Db,
                      from: int)
    requires EditsTo(db, id, name, to, auth, maxAliases, after) && Flat(db.rows)
    requires db.rows[id].nameLower != ""
    requires Resolve(db.rows, target, db.rows[id].nameLower) == Success(to)
    requires from in db.rows && from != id && db.rows[from].linkType.Alias?
    ensures Indexed(Redirected(db.rows, id, target))
    ensures OneHop(after.rows, db.rows[from].nameLower) == Chase(Redirected(db.rows, id, target), db.rows[from].nameLower, {})
  {
    var rows, l := db.rows, db.rows[from];
    var r := Redirected(rows, id, target);
    FindRow(rows, id);
    FindRow(rows, from);
    AfterSetAlias(db, id, name, to, auth, maxAliases, after, l.nameLower);
    AfterSetAlias(db, id, name, to, auth, maxAliases, after, l.aliasTarget);
    AfterSetAlias(db, id, name, to, auth, maxAliases, after, to);
    FindRedirected(rows, id, target, l.nameLower);
    FindRedirected(rows, id, target, l.aliasTarget);
    assert Chase(r, l.nameLower, {}) == Chase(r, l.aliasTarget, {} + {from});
    if l.aliasTarget == rows[id].nameLower { EnterAt(rows, id, target, to, from); }
  }

  /** Arriving at the edited link from an alias of it, the chain still ends at `to`. */
  lemma EnterAt(rows: Rows, id: int, target: string, to: string, from: int)
    requires Indexed(rows) && Flat(rows) && id in rows && rows[id].nameLower != ""
    requires Resolve(rows, target, rows[id].nameLower) == Success(to)
    requires from in rows && from != id && rows[from].linkType.Alias? && rows[from].aliasTarget == rows[id].nameLower
    ensures Indexed(Redirected(rows, id, target)) && Find(rows, to).Some?
    ensures Chase(Redirected(rows, id, target), rows[id].nameLower, {} + {from}) == Row(Find(rows, to).value.id)
  {
    var self, r := rows[id].nameLower, Redirected(rows, id, target);
    FindRow(rows, id);
    FindRedirected(rows, id, target, self);
    FindRedirected(rows, id, target, target);
    var seen := {} + {from} + {id};
    assert Chase(r, self, {} + {from}) == Chase(r, target, seen);
    var l := Find(rows, target).value;
    if l.linkType.Alias? {
      FindRedirected(rows, id, target, l.aliasTarget);
      FindRow(rows, from);
      assert l.id != from;
      assert Chase(r, target, seen) == Chase(r, l.aliasTarget, seen + {l.id});
    }
  }

  /** Where a row points, and whether it is an alias, after SetAlias. */
  lemma RowAfterSetAlias(db: Db, id: int, name: string, to: string, auth: bool, maxAliases: int, after: Db)
    requires EditsTo(db, id, name, to, auth, maxAliases, after)
    ensures after.rows.Keys == db.rows.Keys
    ensures forall i :: i in db.rows ==>
              && after.rows[i].linkType == (if i == id then Alias else db.rows[i].linkType)
              && after.rows[i].aliasTarget == (if i == id || db.rows[i].aliasTarget == db.rows[id].nameLower then to
                                               else db.rows[i].aliasTarget)
  {
    forall i | i in db.rows
      ensures after.rows[i] == Reparented(db.rows[i], id, db.rows[id].nameLower, name, to, auth)
    {}
  }

  /** SetAlias moves exactly the link's own aliases and the link: the new target keeps its old
      ones and gains those, the link keeps none, every other name loses at most the link. */
  lemma SetAliasMoves(db: Db, id: int, name: string, to: string, auth: bool, maxAliases: int, after: Db, n: string)
    requires EditsTo(db, id, name, to, auth, maxAliases, after)
    ensures var own := db.rows[id].nameLower;
            AliasesOf(after.rows, n) ==
              if n == to then AliasesOf(db.rows, to) + AliasesOf(db.rows, own) + {id}
              else if n == own then {}
              else AliasesOf(db.rows, n) - {id}
  {
    RowAfterSetAlias(db, id, name, to, auth, maxAliases, after);
  }

  /** The same for the alias_target column, whatever the type of the rows. */
  lemma SetAliasMovesColumn(db: Db, id: int, name: string, to: string, auth: bool, maxAliases: int, after: Db)
    requires EditsTo(db, id, name, to, auth, maxAliases, after)
    ensures Targeting(after.rows, to) ==
              Targeting(db.rows, to) + Targeting(db.rows, db.rows[id].nameLower) + {id}
  {
    RowAfterSetAlias(db, id, name, to, auth, maxAliases, after);
  }

  lemma Strays(rows: Rows, a: set<int>, b: set<int>, id: int)
    requires a !! b && id in rows
    ensures var aliases := set i | i in a + b && i in rows && rows[i].linkType.Alias?;
            |a| + |b| + 1 == |aliases + {id}| <==>
              forall i :: i in a + b ==> i in rows && rows[i].linkType.Alias? && i != id
  {
    var aliases := set i | i in a + b && i in rows && rows[i].linkType.Alias?;
    assert |a + b| == |a| + |b|;
    Smaller(aliases, a + b);
    if id in aliases { assert aliases + {id} == aliases; } else { assert |aliases + {id}| == |aliases| + 1; }
    if aliases == a + b {
      forall i | i in a + b ensures i in rows && rows[i].linkType.Alias? { assert i in aliases; }
    }
    if forall i :: i in a + b ==> i in rows && rows[i].linkType.Alias? {
      forall i | i in a + b ensures i in aliases {}
      assert aliases == a + b;
    }
  }

  lemma AliasesAmong(rows: Rows, n: string, m: string)
    ensures AliasesOf(rows, n) + AliasesOf(rows, m) ==
              set i | i in Targeting(rows, n) + Targeting(rows, m) && i in rows && rows[i].linkType.Alias?
  {
  }

  /** The limit test of SetAlias compares with the limit what the target will have, exactly when
      every row it counts is an alias and none is the link itself. It counts a row of another type
      with a stray alias target, and it counts the link twice where it already points at the new
      target or at itself; those are the inputs it can refuse within the limit. */
  lemma LimitTestExactly(db: Db, id: int, to: string)
    requires Indexed(db.rows) && id in db.rows && to != db.rows[id].nameLower
    ensures var own := db.rows[id].nameLower;
            |Targeting(db.rows, to)| + |Targeting(db.rows, own)| + 1
              == |AliasesOf(db.rows, to) + AliasesOf(db.rows, own) + {id}| <==>
            forall i :: i in Targeting(db.rows, to) + Targeting(db.rows, own) ==>
                          db.rows[i].linkType.Alias? && i != id
  {
    var own := db.rows[id].nameLower;
    AliasesAmong(db.rows, to, own);
    Strays(db.rows, Targeting(db.rows, to), Targeting(db.rows, own), id);
  }

  /** The tests made before an alias is created likewise: they count aliases, exactly when no row of
      another type names the target. */
  lemma CreationTestExactly(rows: Rows, to: string)
    ensures |AliasesOf(rows, to)| <= |Targeting(rows, to)|
    ensures |Targeting(rows, to)| == |AliasesOf(rows, to)| <==>
              forall i :: i in Targeting(rows, to) ==> rows[i].linkType.Alias?
  {
    Smaller(AliasesOf(rows, to), Targeting(rows, to));
    if AliasesOf(rows, to) == Targeting(rows, to) {
      forall i | i in Targeting(rows, to) ensures rows[i].linkType.Alias? { assert i in AliasesOf(rows, to); }
    }
    if forall i :: i in Targeting(rows, to) ==> rows[i].linkType.Alias? {
      forall i | i in Targeting(rows, to) ensures i in AliasesOf(rows, to) {}
      assert AliasesOf(rows, to) == Targeting(rows, to);
    }
  }

  /** Refused within the limit, saving again: a link that is the one permitted alias. */
  lemma ResaveAtTheLimitIsRefused()
    ensures var doc := Link(1, "docs", "docs", "https://docs", "o", Simple, "", false, 0, None, 0);
            var d := Link(2, "d", "d", "", "o", Alias, "docs", false, 0, None, 0);
            var db := Db(map[1 := doc, 2 := d], {}, 3);
            && SetAliasSpec(db, 2, "d", "docs", false, 1) == Failure(AliasLimitExceeded)
            && AliasesOf(db.rows, "docs") + AliasesOf(db.rows, "d") + {2} == {2}
  {
    var doc := Link(1, "docs", "docs", "https://docs", "o", Simple, "", false, 0, None, 0);
    var d := Link(2, "d", "d", "", "o", Alias, "docs", false, 0, None, 0);
    var rows: Rows := map[1 := doc, 2 := d];
    assert rows[2].aliasTarget == "docs" && |"docs"| != |"d"|;
    assert Targeting(rows, "docs") == {2};
    assert Targeting(rows, "d") == {};
  }

  /** Refused within the limit, stray: no alias exists, but a link x that is none names docs. */
  lemma StrayTargetIsRefused(docs: Link, x: Link, y: Link, db: Db)
    requires db == Db(map[1 := docs, 2 := x, 3 := y], {}, 4) && docs.id == 1 && x.id == 2 && y.id == 3
    requires docs.linkType.Simple? && x.linkType.Simple? && y.linkType.Simple?
    requires docs.nameLower != y.nameLower && docs.nameLower != "" && y.nameLower != ""
    requires docs.aliasTarget == "" && y.aliasTarget == "" && x.aliasTarget == docs.nameLower
    ensures SetAliasSpec(db, 3, y.name, docs.nameLower, false, 1) == Failure(AliasLimitExceeded)
    ensures AliasesOf(db.rows, docs.nameLower) + AliasesOf(db.rows, y.nameLower) + {3} == {3}
    ensures |Targeting(db.rows, docs.nameLower)| >= 1 > |AliasesOf(db.rows, docs.nameLower)|
  {
    assert db.rows[1] == docs && db.rows[2] == x && db.rows[3] == y;
    assert Targeting(db.rows, docs.nameLower) == {2};
    assert Targeting(db.rows, y.nameLower) == {};
    assert AliasesOf(db.rows, docs.nameLower) == {} && AliasesOf(db.rows, y.nameLower) == {};
  }
}
