/** The repository over the two tables: every method proved against its specification. */
module LinkRepo {
  import opened Common
  import opened Text
  import opened LinkStore
  import opened Paging
  import opened Search

  /** Of a clear query the page is one of the rows asked for, and the total their number. */
  ghost predicate FindsWanted(page: seq<Link>, total: nat, rows: set<Link>, query: string, d: Dialect,
                              o: Order, limit: nat, offset: nat)
  {
    RowsLower(rows) ==>
      forall p, f, n :: Clear(p, f, n, d) && query == Typed(p, n) ==>
        PageOf(page, WantedOf(rows, f, n), o, limit, offset) && total == |WantedOf(rows, f, n)|
  }

  lemma HitsFound(page: seq<Link>, total: nat, rows: set<Link>, query: string, d: Dialect, o: Order, limit: nat, offset: nat)
    requires PageOf(page, Hits(rows, query, d), o, limit, offset) && total == |Hits(rows, query, d)|
    ensures FindsWanted(page, total, rows, query, d, o, limit, offset)
  {
    if RowsLower(rows) {
      forall p, f, n | Clear(p, f, n, d) && query == Typed(p, n) ensures Hits(rows, query, d) == WantedOf(rows, f, n) {
        HitsAreWanted(rows, p, f, n, d);
      }
    }
  }

  class SQLLinkRepo {
    const backend: Dialect
    var rows: Rows
    var shares: set<(int, string)>
    var nextId: int

    ghost function State(): Db reads this { Db(rows, shares, nextId) }

    constructor (backend: Dialect)
      ensures State() == Db(map[], {}, 1) && Valid(State()) && this.backend == backend
    {
      this.backend := backend;
      rows, shares, nextId := map[], {}, 1;
    }

    method GetByName(n: string) returns (r: Option<Link>)
      requires Indexed(rows)
      ensures r == Find(rows, n)
    {
      if exists i :: i in rows && rows[i].nameLower == n {
        var i :| i in rows && rows[i].nameLower == n;
        FindRow(rows, i);
        r := Some(rows[i]);
      } else {
        r := None;
      }
    }

    method CountAliases(n: string) returns (count: nat)
      ensures count == |Targeting(rows, n)|
    {
      count := |set i | i in rows && rows[i].aliasTarget == n|;
    }

    method Create(name: string, target: string, owner: string, lt: LinkType,
                  aliasTarget: string, auth: bool, now: int) returns (r: Result<Link, DbError>)
      requires Valid(State())
      modifies this
      ensures Valid(State())
      ensures var s := CreateSpec(old(State()), name, target, owner, lt, aliasTarget, auth, now);
              match s
              case Failure(e) => r == Failure(e) && State() == old(State())
              case Success(db) => State() == db && old(nextId) in rows && r == Success(rows[old(nextId)])
    {
      var nameLower := ToLower(name);
      if Taken(rows, nameLower) { return Failure(UniqueViolation); }
      var link := Link(nextId, name, nameLower, target, owner, lt, aliasTarget, auth, now, None, 0);
      rows := rows[nextId := link];
      nextId := nextId + 1;
      r := Success(link);
    }

    method Update(id: int, name: string, target: string, lt: LinkType, auth: bool) returns (r: Result<Link, DbError>)
      requires Valid(State())
      modifies this
      ensures Valid(State())
      ensures match UpdateSpec(old(State()), id, name, target, lt, auth)
              case Failure(e) => r == Failure(e) && State() == old(State())
              case Success(db) => State() == db && id in rows && r == Success(rows[id])
    {
      if id !in rows { return Failure(NotFound); }
      var nameLower := ToLower(name);
      if exists j :: j in rows && j != id && rows[j].nameLower == nameLower {
        TakenByOther(rows, id, nameLower);
        return Failure(UniqueViolation);
      }
      var l := rows[id];
      rows := rows[id := l.(name := name, nameLower := nameLower, target := target,
                            linkType := lt, aliasTarget := "", requireAuth := auth)];
      r := Success(rows[id]);
    }

    /** One transaction: counts, reparenting UPDATE, converting UPDATE, commit. Nothing is
        stored unless the commit is reached. */
    method SetAlias(id: int, name: string, to: string, auth: bool, maxAliases: int) returns (r: Result<Link, DbError>)
      requires Valid(State())
      modifies this
      ensures Valid(State())
      ensures match SetAliasSpec(old(State()), id, name, to, auth, maxAliases)
              case Failure(e) => r == Failure(e) && State() == old(State())
              case Success(db) => State() == db && id in rows && r == Success(rows[id])
    {
      if id !in rows { return Failure(NotFound); }
      ghost var before := State();
      var own := rows[id].nameLower;
      var targetAliasCount := CountAliases(to);
      var ownAliasCount := CountAliases(own);
      if targetAliasCount + ownAliasCount + 1 > maxAliases { return Failure(AliasLimitExceeded); }
      var tx := rows;
      if ownAliasCount > 0 {
        tx := map i | i in tx :: Retargeted(tx[i], own, to);
      } else {
        NothingToRetarget(tx, own, to);
      }
      var nameLower := ToLower(name);
      TwoUpdates(rows, tx, id, own, name, to, auth);
      if exists j :: j in tx && j != id && tx[j].nameLower == nameLower {
        return Failure(UniqueViolation);
      }
      rows := tx[id := Converted(tx[id], name, to, auth)];
      SetAliasValid(before, id, name, to, auth, maxAliases, State());
      r := Success(rows[id]);
    }

    method Delete(id: int) returns (r: Result<(), DbError>)
      requires Valid(State())
      modifies this
      ensures Valid(State())
      ensures match DeleteSpec(old(State()), id)
              case Failure(e) => r == Failure(e) && State() == old(State())
              case Success(db) => State() == db && r == Success(())
    {
      if id !in rows { return Failure(NotFound); }
      rows := rows - {id};
      shares := set s | s in shares && s.0 != id;
      r := Success(());
    }

    method TransferOwnership(id: int, owner: string) returns (r: Result<Link, DbError>)
      requires Valid(State())
      modifies this
      ensures Valid(State())
      ensures match TransferSpec(old(State()), id, owner)
              case Failure(e) => r == Failure(e) && State() == old(State())
              case Success(db) => State() == db && id in rows && r == Success(rows[id])
    {
      if id !in rows { return Failure(NotFound); }
      rows := rows[id := rows[id].(owner := owner)];
      r := Success(rows[id]);
    }

    method ReassignLinks(fromOwner: string, toOwner: string) returns (n: nat)
      requires Valid(State())
      modifies this
      ensures Valid(State()) && State() == ReassignSpec(old(State()), fromOwner, toOwner)
      ensures n == |set i | i in old(rows) && old(rows)[i].owner == fromOwner|
    {
      n := |set i | i in rows && rows[i].owner == fromOwner|;
      rows := map i | i in rows :: if rows[i].owner == fromOwner then rows[i].(owner := toOwner) else rows[i];
    }

    method AddShare(id: int, email: string)
      requires Valid(State()) && id in rows
      modifies this
      ensures Valid(State()) && State() == ShareSpec(old(State()), id, email)
    {
      shares := shares + {(id, email)};
    }

    method AddUses(id: int, delta: nat, now: int)
      requires Valid(State())
      modifies this
      ensures Valid(State()) && State() == AddUsesSpec(old(State()), id, delta, now)
    {
      if id in rows {
        var l := rows[id];
        rows := rows[id := l.(useCount := l.useCount + delta, lastUsedAt := Some(now))];
      }
    }

    method List(limit: nat, offset: nat, o: Order, publicOnly: bool) returns (page: seq<Link>, total: nat)
      requires Valid(State())
      ensures PageOf(page, Listed(rows, publicOnly), o, limit, offset) && total == |Listed(rows, publicOnly)|
    {
      var q := Listed(rows, publicOnly);
      var s := Ordered(q, o);
      page, total := Slice(s, limit, offset), |q|;
    }

    method ListOwnedOrSharedWith(owner: string, identifiers: seq<string>, limit: nat, offset: nat, o: Order)
      returns (page: seq<Link>, total: nat)
      requires Valid(State())
      ensures var q := OwnedBy(State(), owner) + SharedWith(State(), owner, identifiers);
              PageOf(page, q, o, limit, offset) && total == |q|
    {
      OwnedOrSharedCount(State(), owner, identifiers);
      var q := OwnedBy(Db(rows, shares, nextId), owner);
      if |identifiers| > 0 { q := q + SharedWith(Db(rows, shares, nextId), owner, identifiers); }
      var s := Ordered(q, o);
      page, total := Slice(s, limit, offset), |q|;
    }

    method Search(query: string, limit: nat, offset: nat, o: Order, publicOnly: bool) returns (page: seq<Link>, total: nat)
      requires Valid(State())
      ensures var hits := Hits(Listed(rows, publicOnly), query, backend);
              PageOf(page, hits, o, limit, offset) && total == |hits|
      ensures FindsWanted(page, total, Listed(rows, publicOnly), query, backend, o, limit, offset)
    {
      var (field, pattern) := ParseSearchQuery(query);
      var q := Selected(Listed(rows, publicOnly), field, pattern, backend);
      var s := Ordered(q, o);
      page, total := Slice(s, limit, offset), |q|;
      HitsFound(page, total, Listed(rows, publicOnly), query, backend, o, limit, offset);
    }

    /** Without identifiers only the owner's links are searched; either way both branches of the
        UNION carry the same match expression. */
    method SearchOwnedOrSharedWith(owner: string, identifiers: seq<string>, query: string, limit: nat, offset: nat, o: Order)
      returns (page: seq<Link>, total: nat)
      requires Valid(State())
      ensures var hits := Hits(OwnedBy(State(), owner) + SharedWith(State(), owner, identifiers), query, backend);
              PageOf(page, hits, o, limit, offset) && total == |hits|
      ensures FindsWanted(page, total, OwnedBy(State(), owner) + SharedWith(State(), owner, identifiers), query, backend,
                          o, limit, offset)
    {
      OwnedOrSharedCount(State(), owner, identifiers);
      var db := Db(rows, shares, nextId);
      var (field, pattern) := ParseSearchQuery(query);
      SelectedUnion(OwnedBy(db, owner), SharedWith(db, owner, identifiers), field, pattern, backend);
      var found := Selected(OwnedBy(db, owner), field, pattern, backend);
      if |identifiers| > 0 {
        found := found + Selected(SharedWith(db, owner, identifiers), field, pattern, backend);
      }
      var s := Ordered(found, o);
      page, total := Slice(s, limit, offset), |found|;
      HitsFound(page, total, OwnedBy(db, owner) + SharedWith(db, owner, identifiers), query, backend, o, limit, offset);
    }

    method GetShares(id: int) returns (emails: seq<string>)
      ensures forall e :: e in emails <==> e in SharesOf(State(), id)
      ensures forall i, j :: 0 <= i < j < |emails| ==> emails[i] != emails[j]
    {
      var rest := SharesOf(Db(rows, shares, nextId), id);
      emails := [];
      while rest != {}
        invariant rest <= SharesOf(State(), id)
        invariant forall e :: e in emails <==> e in SharesOf(State(), id) - rest
        invariant forall i, j :: 0 <= i < j < |emails| ==> emails[i] != emails[j]
      {
        var e :| e in rest;
        assert e !in emails;
        emails, rest := emails + [e], rest - {e};
      }
    }
  }

  /** The database's sort: it may take any row that nothing remaining has to precede. */
  method Ordered(q: set<Link>, o: Order) returns (s: seq<Link>)
    ensures IsOrdering(s, q, o)
  {
    var rest := q;
    s := [];
    while rest != {}
      invariant rest <= q && IsOrdering(s, q - rest, o)
      invariant forall a, b :: a in q - rest && b in rest ==> Precedes(a, b, o)
    {
      FirstExists(rest, o);
      assert exists l :: l in rest && forall x :: x in rest ==> Precedes(l, x, o) by {
        var f :| IsFirst(f, rest, o);
      }
      var l :| l in rest && forall x :: x in rest ==> Precedes(l, x, o);
      OneMoreLast(s, q - rest, l, o);
      assert q - rest + {l} == q - (rest - {l});
      s, rest := s + [l], rest - {l};
    }
    assert q - rest == q;
  }
}
