/** What every request keeps, over whole runs: table structure, a flat alias graph, existing alias
    targets, the alias limit, valid redirect targets. */
module Invariants {
  import opened Common
  import opened Text
  import opened LinkStore
  import opened AliasGraph
  import opened Validate
  import opened Handlers

  ghost predicate Inv(db: Db) {
    Valid(db) && forall i :: i in db.rows ==> db.rows[i].nameLower != ""
  }

  ghost predicate WithinLimit(rows: Rows, maxAliases: int) {
    forall n: string :: AliasesOf(rows, n) != {} ==> |AliasesOf(rows, n)| <= maxAliases
  }

  /** The name under which a request would create an alias. */
  function NewAliasName(req: Request): Option<string> {
    match req
    case New(p, _, _) => if p.lt.Alias? then Some(ToLower(p.name)) else None
    case NewAlias(_, aliasName, _, _) => Some(ToLower(TrimSpace(aliasName)))
    case _ => None
  }

  /** No alias is to be created under a name that dangling aliases still reference. */
  ghost predicate NameUnreferenced(db: Db, req: Request) {
    NewAliasName(req).Some? ==> AliasesOf(db.rows, NewAliasName(req).value) == {}
  }

  /** No link is to be deleted while aliases point at it. */
  ghost predicate SparesTargets(db: Db, req: Request) {
    req.Remove? ==> AliasesOf(db.rows, ToLower(req.name)) == {}
  }

  /** Two tables that draw the same alias graph. */
  ghost predicate SameGraph(a: Rows, b: Rows) {
    && a.Keys == b.Keys
    && forall i :: i in a ==> && a[i].id == b[i].id && a[i].name == b[i].name && a[i].nameLower == b[i].nameLower
                              && a[i].linkType == b[i].linkType && a[i].aliasTarget == b[i].aliasTarget
  }

  lemma SameGraphKeeps(a: Db, b: Db)
    requires Inv(a) && SameGraph(a.rows, b.rows) && b.nextId == a.nextId && b.shares == a.shares
    ensures Flat(a.rows) ==> Flat(b.rows)
    ensures Closed(a.rows) ==> Closed(b.rows)
  {
    SameNames(a.rows, b.rows);
  }

  lemma SameGraphAliases(a: Rows, b: Rows, n: string)
    requires SameGraph(a, b)
    ensures AliasesOf(b, n) == AliasesOf(a, n)
  {
    forall i ensures i in AliasesOf(b, n) <==> i in AliasesOf(a, n) {
      if i in a { assert a[i].linkType == b[i].linkType; }
    }
  }

  /** Names present in one table stay present in another that keeps the named rows. */
  lemma SameNames(a: Rows, b: Rows)
    requires forall i :: i in a ==> i in b && b[i].nameLower == a[i].nameLower
    ensures forall n: string :: Taken(a, n) ==> Taken(b, n)
  {
    forall n: string | Taken(a, n) ensures Taken(b, n) {
      var i :| i in a && a[i].nameLower == n;
      assert b[i].nameLower == n;
    }
  }

  /** A new row keeps a table flat exactly when it is no alias, or its name is not yet referenced
      and its target is neither an alias nor itself. */
  lemma CreateFlat(db: Db, name: string, target: string, owner: string, lt: LinkType, to: string,
                   auth: bool, now: int, after: Db)
    requires Inv(db) && Flat(db.rows) && name != ""
    requires CreateSpec(db, name, target, owner, lt, to, auth, now) == Success(after)
    ensures Flat(after.rows) <==>
            (lt.Alias? ==> AliasesOf(db.rows, ToLower(name)) == {} && Canonical(db.rows, to, ToLower(name)))
  {
    var k, n, r := db.nextId, ToLower(name), after.rows;
    forall i | i in db.rows ensures r[i] == db.rows[i] && i != k {}
    assert !Taken(db.rows, n);
    if !lt.Alias? || (AliasesOf(db.rows, n) == {} && Canonical(db.rows, to, n)) {
      forall i, j | i in r && j in r && r[i].linkType.Alias? && r[j].nameLower == r[i].aliasTarget
        ensures !r[j].linkType.Alias?
      {
        if lt.Alias? { assert i !in AliasesOf(db.rows, n); }
        if j != k { FindRow(db.rows, j); }
      }
    } else if AliasesOf(db.rows, n) != {} {
      var i :| i in AliasesOf(db.rows, n);
      assert r[i].linkType.Alias? && r[k].nameLower == r[i].aliasTarget;
    } else {
      assert r[k].linkType.Alias? && r[k].aliasTarget == to;
      var j := if to == n then k else Find(db.rows, to).value.id;
      assert r[j].nameLower == to && r[j].linkType.Alias?;
    }
  }

  lemma CreateClosed(db: Db, name: string, target: string, owner: string, lt: LinkType, to: string,
                     auth: bool, now: int, after: Db)
    requires Inv(db) && Closed(db.rows)
    requires CreateSpec(db, name, target, owner, lt, to, auth, now) == Success(after)
    requires lt.Alias? ==> Taken(db.rows, to)
    ensures Closed(after.rows) && AliasesOf(db.rows, ToLower(name)) == {}
  {
    forall i | i in db.rows ensures after.rows[i] == db.rows[i] {}
    SameNames(db.rows, after.rows);
    assert !Taken(db.rows, ToLower(name));
    forall i | i in db.rows ensures i !in AliasesOf(db.rows, ToLower(name)) {}
  }

  lemma CreateAliases(db: Db, name: string, target: string, owner: string, lt: LinkType, to: string,
                      auth: bool, now: int, after: Db, n: string)
    requires Inv(db)
    requires CreateSpec(db, name, target, owner, lt, to, auth, now) == Success(after)
    ensures AliasesOf(after.rows, n) == AliasesOf(db.rows, n) + if lt.Alias? && n == to then {db.nextId} else {}
  {
    forall i | i in db.rows ensures after.rows[i] == db.rows[i] && i != db.nextId {}
  }

  lemma UpdateKeeps(db: Db, id: int, name: string, target: string, lt: LinkType, auth: bool, after: Db)
    requires Inv(db) && Flat(db.rows) && id in db.rows && !lt.Alias? && ToLower(name) == db.rows[id].nameLower
    requires UpdateSpec(db, id, name, target, lt, auth) == Success(after)
    ensures Flat(after.rows)
    ensures Closed(db.rows) ==> Closed(after.rows)
    ensures forall n: string :: AliasesOf(after.rows, n) <= AliasesOf(db.rows, n)
  {
    forall i | i in db.rows ensures after.rows[i].nameLower == db.rows[i].nameLower {}
    SameNames(db.rows, after.rows);
  }

  /** SetAlias keeps a table flat exactly when the target is neither an alias nor the link. */
  lemma SetAliasFlat(db: Db, id: int, name: string, to: string, auth: bool, maxAliases: int, after: Db)
    requires Inv(db) && Flat(db.rows) && EditsTo(db, id, name, to, auth, maxAliases, after)
    ensures Flat(after.rows) <==> Canonical(db.rows, to, db.rows[id].nameLower)
  {
    RowAfterSetAlias(db, id, name, to, auth, maxAliases, after);
    var own, r := db.rows[id].nameLower, after.rows;
    NamesAfterSetAlias(db, id, name, to, auth, maxAliases, after);
    if Canonical(db.rows, to, own) {
      forall i, j | i in r && j in r && r[i].linkType.Alias? && r[j].nameLower == r[i].aliasTarget
        ensures !r[j].linkType.Alias?
      {
        FindRow(db.rows, j);
        assert r[i].aliasTarget != own && j != id;
      }
    } else {
      var j := if to == own then id else Find(db.rows, to).value.id;
      assert r[id].aliasTarget == to && r[j].nameLower == to && r[j].linkType.Alias?;
    }
  }

  lemma SetAliasClosed(db: Db, id: int, name: string, to: string, auth: bool, maxAliases: int, after: Db)
    requires Inv(db) && Closed(db.rows) && EditsTo(db, id, name, to, auth, maxAliases, after) && Taken(db.rows, to)
    ensures Closed(after.rows)
  {
    RowAfterSetAlias(db, id, name, to, auth, maxAliases, after);
    NamesAfterSetAlias(db, id, name, to, auth, maxAliases, after);
    SameNames(db.rows, after.rows);
    forall i | i in after.rows && after.rows[i].linkType.Alias? ensures Taken(after.rows, after.rows[i].aliasTarget) {
      assert Taken(db.rows, after.rows[i].aliasTarget);
    }
  }

  lemma DeleteKeeps(db: Db, id: int, after: Db)
    requires Inv(db) && Flat(db.rows) && id in db.rows && DeleteSpec(db, id) == Success(after)
    ensures Flat(after.rows)
    ensures Closed(db.rows) && AliasesOf(db.rows, db.rows[id].nameLower) == {} ==> Closed(after.rows)
    ensures forall n: string :: AliasesOf(after.rows, n) <= AliasesOf(db.rows, n)
  {
    if Closed(db.rows) && AliasesOf(db.rows, db.rows[id].nameLower) == {} {
      forall i | i in after.rows && after.rows[i].linkType.Alias? ensures Taken(after.rows, after.rows[i].aliasTarget) {
        assert i !in AliasesOf(db.rows, db.rows[id].nameLower);
        var j :| j in db.rows && db.rows[j].nameLower == db.rows[i].aliasTarget;
        assert after.rows[j].nameLower == after.rows[i].aliasTarget;
      }
    }
  }

  // ---- structure, whatever the graph -----------------------------------------------------

  /** The row a handler found by name: its name_lower is the name asked for. */
  lemma Found(db: Db, n: string)
    requires Inv(db) && Find(db.rows, n).Some?
    ensures var l := Find(db.rows, n).value; l.id in db.rows && db.rows[l.id] == l && l.nameLower == n && n != ""
  {
  }

  lemma InvSetAlias(db: Db, id: int, name: string, to: string, auth: bool, maxAliases: int, after: Db)
    requires Inv(db) && EditsTo(db, id, name, to, auth, maxAliases, after)
    ensures Inv(after)
  {
    SetAliasValid(db, id, name, to, auth, maxAliases, after);
    NamesAfterSetAlias(db, id, name, to, auth, maxAliases, after);
  }

  lemma InvEdited(db: Db, l: Link, e: Edit, cfg: Config, after: Db)
    requires Inv(db) && l.id in db.rows && db.rows[l.id] == l && EditLink(db, cfg, l, e) == Success(after)
    ensures Inv(after)
  {
    if e.lt.Alias? {
      InvSetAlias(db, l.id, l.name, Resolve(db.rows, e.requested, l.nameLower).value, e.auth, cfg.maxAliases, after);
    } else {
      UpdateValid(db, l.id, l.name, e.target, e.lt, e.auth, after);
    }
  }

  lemma InvCreated(db: Db, name: string, target: string, owner: string, lt: LinkType, to: string,
                   auth: bool, now: int, after: Db)
    requires Inv(db) && name != ""
    requires CreateSpec(db, name, target, owner, lt, to, auth, now) == Success(after)
    ensures Inv(after)
  {
  }

  lemma InvUnmoved(a: Db, b: Db)
    requires Inv(a) && b.nextId == a.nextId
    requires b.rows.Keys <= a.rows.Keys && b.shares <= a.shares && forall s :: s in b.shares ==> s.0 in b.rows
    requires forall i :: i in b.rows ==> b.rows[i].id == i
    requires forall i :: i in b.rows ==> b.rows[i].name == a.rows[i].name && b.rows[i].nameLower == a.rows[i].nameLower
    ensures Inv(b)
  {
  }

  lemma InvReassigned(db: Db, fromOwner: string, toOwner: string)
    requires Inv(db)
    ensures Inv(ReassignSpec(db, fromOwner, toOwner))
  {
    InvUnmoved(db, ReassignSpec(db, fromOwner, toOwner));
  }

  lemma InvCounted(db: Db, id: int, delta: nat, now: int)
    requires Inv(db)
    ensures Inv(AddUsesSpec(db, id, delta, now))
  {
    InvUnmoved(db, AddUsesSpec(db, id, delta, now));
  }

  lemma InvRemoved(db: Db, id: int, after: Db)
    requires Inv(db) && DeleteSpec(db, id) == Success(after)
    ensures Inv(after)
  {
  }

  lemma InvTransferred(db: Db, id: int, owner: string, after: Db)
    requires Inv(db) && TransferSpec(db, id, owner) == Success(after)
    ensures Inv(after)
  {
  }

  lemma InvNew(db: Db, cfg: Config, p: CreateParams, owner: string, now: int, after: Db)
    requires Inv(db) && DoCreateLink(db, cfg, p, owner, now) == Success(after)
    ensures Inv(after)
  {
    var to := if p.lt.Alias? then Resolve(db.rows, p.aliasTarget, "").value else p.aliasTarget;
    InvCreated(db, p.name, p.target, owner, p.lt, to, p.auth, now, after);
  }

  lemma InvNewAlias(db: Db, cfg: Config, canonical: string, aliasName: string, owner: string, now: int, after: Db)
    requires Inv(db) && CreateAlias(db, cfg, canonical, aliasName, owner, now) == Success(after)
    ensures Inv(after)
  {
    InvCreated(db, TrimSpace(aliasName), "", owner, Alias, ToLower(canonical), false, now, after);
  }

  lemma InvEdit(db: Db, cfg: Config, req: Request, after: Db)
    requires Inv(db) && (req.Patch? || req.Details?) && Answer(db, cfg, req) == Success(after)
    ensures Inv(after)
  {
    Found(db, ToLower(req.name));
    var l := Find(db.rows, ToLower(req.name)).value;
    match req
    case Patch(_, m) => InvEdited(db, l, Masked(l, m), cfg, after);
    case Details(_, lt, target, aliasTarget, auth) => InvEdited(db, l, Form(lt, target, aliasTarget, auth), cfg, after);
  }

  lemma InvStep(db: Db, cfg: Config, req: Request)
    requires Inv(db)
    ensures Inv(Step(db, cfg, req))
  {
    var answer := Answer(db, cfg, req);
    if answer.Success? {
      match req
      case Remove(name) => InvRemoved(db, Find(db.rows, ToLower(name)).value.id, answer.value);
      case Transfer(name, owner) => InvTransferred(db, Find(db.rows, ToLower(name)).value.id, TrimSpace(owner), answer.value);
      case Reassign(fromOwner, toOwner) => InvReassigned(db, fromOwner, toOwner);
      case Counted(id, delta, now) => InvCounted(db, id, delta, now);
      case New(p, owner, now) => InvNew(db, cfg, p, owner, now, answer.value);
      case NewAlias(canonical, aliasName, owner, now) =>
        InvNewAlias(db, cfg, canonical, aliasName, owner, now, answer.value);
      case _ => InvEdit(db, cfg, req, answer.value);
    }
  }

  lemma OwnNameFree(db: Db, l: Link)
    requires Inv(db) && l.id in db.rows && db.rows[l.id] == l
    ensures !Taken(db.rows - {l.id}, ToLower(l.name))
  {
    TakenByOther(db.rows, l.id, ToLower(l.name));
  }

  lemma EditAcceptedExactly(db: Db, cfg: Config, l: Link, e: Edit)
    requires Inv(db) && l.id in db.rows && db.rows[l.id] == l
    ensures EditLink(db, cfg, l, e).Success? <==> EditAccepted(db, cfg, l, e.lt, e.requested, e.target, e.checked)
    ensures EditLink(db, cfg, l, e) != Failure(Internal)
  {
    OwnNameFree(db, l);
  }

  /** The guards are all there is: a request that passes them is carried out, one that does not is
      refused, and none ends in an internal error, because the row a handler found is still there and,
      keeping its name, clashes with no other. */
  lemma AcceptedExactly(db: Db, cfg: Config, req: Request)
    requires Inv(db)
    ensures Answer(db, cfg, req).Success? <==> Accepts(db, cfg, req)
    ensures Answer(db, cfg, req) != Failure(Internal)
  {
    match req
    case Patch(name, m) =>
      if Find(db.rows, ToLower(name)).Some? {
        var l := Find(db.rows, ToLower(name)).value;
        EditAcceptedExactly(db, cfg, l, Masked(l, m));
      }
    case Details(name, lt, target, aliasTarget, auth) =>
      if Find(db.rows, ToLower(name)).Some? {
        EditAcceptedExactly(db, cfg, Find(db.rows, ToLower(name)).value, Form(lt, target, aliasTarget, auth));
      }
    case _ =>
  }

  // ---- the alias limit -------------------------------------------------------------------

  lemma AliasesAreTargeting(rows: Rows, n: string)
    ensures AliasesOf(rows, n) <= Targeting(rows, n) && |AliasesOf(rows, n)| <= |Targeting(rows, n)|
  {
    Smaller(AliasesOf(rows, n), Targeting(rows, n));
  }

  lemma LimitAfterCreate(db: Db, name: string, target: string, owner: string, lt: LinkType, to: string,
                         auth: bool, now: int, maxAliases: int, after: Db)
    requires Inv(db) && WithinLimit(db.rows, maxAliases)
    requires CreateSpec(db, name, target, owner, lt, to, auth, now) == Success(after)
    ensures WithinLimit(after.rows, maxAliases) <==> (lt.Alias? ==> |AliasesOf(db.rows, to)| < maxAliases)
  {
    CreateAliases(db, name, target, owner, lt, to, auth, now, after, to);
    forall n: string | AliasesOf(after.rows, n) != {} && (n == to && lt.Alias? ==> |AliasesOf(db.rows, to)| < maxAliases)
      ensures |AliasesOf(after.rows, n)| <= maxAliases
    {
      CreateAliases(db, name, target, owner, lt, to, auth, now, after, n);
    }
  }

  lemma LimitAfterSetAlias(db: Db, id: int, name: string, to: string, auth: bool, maxAliases: int, after: Db)
    requires Inv(db) && WithinLimit(db.rows, maxAliases) && EditsTo(db, id, name, to, auth, maxAliases, after)
    ensures WithinLimit(after.rows, maxAliases)
  {
    var own := db.rows[id].nameLower;
    AliasesAreTargeting(db.rows, to);
    AliasesAreTargeting(db.rows, own);
    forall n: string | AliasesOf(after.rows, n) != {} ensures |AliasesOf(after.rows, n)| <= maxAliases {
      SetAliasMoves(db, id, name, to, auth, maxAliases, after, n);
      if n == to {
        var a, b := AliasesOf(db.rows, to), AliasesOf(db.rows, own);
        assert |a + b| == |a| + |b| - |a * b|;
        assert |a + b + {id}| <= |a + b| + 1;
      } else {
        Smaller(AliasesOf(after.rows, n), AliasesOf(db.rows, n));
      }
    }
  }

  /** Fewer aliases everywhere is still within the limit. */
  lemma LimitShrinks(a: Rows, b: Rows, maxAliases: int)
    requires WithinLimit(a, maxAliases) && forall n: string :: AliasesOf(b, n) <= AliasesOf(a, n)
    ensures WithinLimit(b, maxAliases)
  {
    forall n: string | AliasesOf(b, n) != {} ensures |AliasesOf(b, n)| <= maxAliases {
      Smaller(AliasesOf(b, n), AliasesOf(a, n));
    }
  }

  lemma EditWithinLimit(db: Db, cfg: Config, l: Link, e: Edit, after: Db)
    requires Inv(db) && WithinLimit(db.rows, cfg.maxAliases) && l.id in db.rows && db.rows[l.id] == l
    requires EditLink(db, cfg, l, e) == Success(after)
    ensures WithinLimit(after.rows, cfg.maxAliases)
  {
    if e.lt.Alias? {
      LimitAfterSetAlias(db, l.id, l.name, Resolve(db.rows, e.requested, l.nameLower).value, e.auth, cfg.maxAliases, after);
    } else {
      LimitShrinks(db.rows, after.rows, cfg.maxAliases);
    }
  }

  lemma LimitNew(db: Db, cfg: Config, p: CreateParams, owner: string, now: int, after: Db)
    requires Inv(db) && WithinLimit(db.rows, cfg.maxAliases) && DoCreateLink(db, cfg, p, owner, now) == Success(after)
    ensures WithinLimit(after.rows, cfg.maxAliases)
  {
    var to := if p.lt.Alias? then Resolve(db.rows, p.aliasTarget, "").value else p.aliasTarget;
    AliasesAreTargeting(db.rows, to);
    LimitAfterCreate(db, p.name, p.target, owner, p.lt, to, p.auth, now, cfg.maxAliases, after);
  }

  lemma LimitNewAlias(db: Db, cfg: Config, canonical: string, aliasName: string, owner: string, now: int, after: Db)
    requires Inv(db) && WithinLimit(db.rows, cfg.maxAliases)
    requires CreateAlias(db, cfg, canonical, aliasName, owner, now) == Success(after)
    ensures WithinLimit(after.rows, cfg.maxAliases)
  {
    AliasesAreTargeting(db.rows, ToLower(canonical));
    LimitAfterCreate(db, TrimSpace(aliasName), "", owner, Alias, ToLower(canonical), false, now, cfg.maxAliases, after);
  }

  lemma LimitEdit(db: Db, cfg: Config, req: Request, after: Db)
    requires Inv(db) && WithinLimit(db.rows, cfg.maxAliases)
    requires (req.Patch? || req.Details?) && Answer(db, cfg, req) == Success(after)
    ensures WithinLimit(after.rows, cfg.maxAliases)
  {
    Found(db, ToLower(req.name));
    var l := Find(db.rows, ToLower(req.name)).value;
    match req
    case Patch(_, m) => EditWithinLimit(db, cfg, l, Masked(l, m), after);
    case Details(_, lt, target, aliasTarget, auth) =>
      EditWithinLimit(db, cfg, l, Form(lt, target, aliasTarget, auth), after);
  }

  /** Every handler keeps the limit, in flat states and in others. */
  lemma LimitStep(db: Db, cfg: Config, req: Request)
    requires Inv(db) && WithinLimit(db.rows, cfg.maxAliases)
    ensures WithinLimit(Step(db, cfg, req).rows, cfg.maxAliases)
  {
    var answer := Answer(db, cfg, req);
    if answer.Success? {
      var after := answer.value;
      match req
      case New(p, owner, now) => LimitNew(db, cfg, p, owner, now, after);
      case NewAlias(canonical, aliasName, owner, now) => LimitNewAlias(db, cfg, canonical, aliasName, owner, now, after);
      case Patch(_, _) => LimitEdit(db, cfg, req, after);
      case Details(_, _, _, _, _) => LimitEdit(db, cfg, req, after);
      case Remove(_) => LimitShrinks(db.rows, after.rows, cfg.maxAliases);
      case _ => LimitOther(db, cfg, req, after);
    }
  }

  lemma LimitOther(db: Db, cfg: Config, req: Request, after: Db)
    requires Inv(db) && WithinLimit(db.rows, cfg.maxAliases)
    requires (req.Transfer? || req.Reassign? || req.Counted?) && Answer(db, cfg, req) == Success(after)
    ensures WithinLimit(after.rows, cfg.maxAliases)
  {
    forall n: string { SameGraphAliases(db.rows, after.rows, n); }
    LimitShrinks(db.rows, after.rows, cfg.maxAliases);
  }

  /** A creation stores the stray alias target it is given, on a link that is no alias: the tables
      on which the limit tests count too much are within reach. */
  lemma StrayIsStored(db: Db, cfg: Config, name: string, target: string, stray: string, owner: string, now: int)
    requires Inv(db) && ValidName(name) && ValidTarget(target) && !Taken(db.rows, ToLower(name))
    ensures var after := Step(db, cfg, New(CreateParams(name, target, Simple, stray, false), owner, now));
            && db.nextId in Targeting(after.rows, stray) && !(db.nextId in AliasesOf(after.rows, stray))
  {
    var after := Step(db, cfg, New(CreateParams(name, target, Simple, stray, false), owner, now));
    assert after.rows[db.nextId] == NewRow(db.nextId, name, target, owner, Simple, stray, false, now);
  }

  // ---- one step ----------------------------------------------------------------------------

  lemma ResolvesToCanonical(rows: Rows, target: string, self: string, to: string)
    requires Indexed(rows) && Flat(rows) && Resolve(rows, target, self) == Success(to)
    ensures Find(rows, to).Some? && !Find(rows, to).value.linkType.Alias?
    ensures self != "" ==> to != self
  {
  }

  lemma EditFlat(db: Db, cfg: Config, l: Link, e: Edit, after: Db)
    requires Inv(db) && Flat(db.rows) && l.id in db.rows && db.rows[l.id] == l
    requires EditLink(db, cfg, l, e) == Success(after)
    ensures Flat(after.rows)
    ensures Closed(db.rows) ==> Closed(after.rows)
  {
    if e.lt.Alias? {
      var to := Resolve(db.rows, e.requested, l.nameLower).value;
      ResolvesToCanonical(db.rows, e.requested, l.nameLower, to);
      SetAliasFlat(db, l.id, l.name, to, e.auth, cfg.maxAliases, after);
      if Closed(db.rows) { SetAliasClosed(db, l.id, l.name, to, e.auth, cfg.maxAliases, after); }
    } else {
      UpdateKeeps(db, l.id, l.name, e.target, e.lt, e.auth, after);
    }
  }

  lemma NewFlat(db: Db, cfg: Config, p: CreateParams, owner: string, now: int, after: Db)
    requires Inv(db) && Flat(db.rows) && DoCreateLink(db, cfg, p, owner, now) == Success(after)
    ensures Flat(after.rows) <==> (p.lt.Alias? ==> AliasesOf(db.rows, ToLower(p.name)) == {})
    ensures Closed(db.rows) ==> Closed(after.rows) && AliasesOf(db.rows, ToLower(p.name)) == {}
  {
    var to := if p.lt.Alias? then Resolve(db.rows, p.aliasTarget, "").value else p.aliasTarget;
    if p.lt.Alias? { ResolvesToCanonical(db.rows, p.aliasTarget, "", to); }
    CreateFlat(db, p.name, p.target, owner, p.lt, to, p.auth, now, after);
    if Closed(db.rows) { CreateClosed(db, p.name, p.target, owner, p.lt, to, p.auth, now, after); }
  }

  lemma NewAliasFlat(db: Db, cfg: Config, canonical: string, aliasName: string, owner: string, now: int, after: Db)
    requires Inv(db) && Flat(db.rows) && CreateAlias(db, cfg, canonical, aliasName, owner, now) == Success(after)
    ensures Flat(after.rows) <==> AliasesOf(db.rows, ToLower(TrimSpace(aliasName))) == {}
    ensures Closed(db.rows) ==> Closed(after.rows) && AliasesOf(db.rows, ToLower(TrimSpace(aliasName))) == {}
  {
    var n, c := TrimSpace(aliasName), ToLower(canonical);
    CreateFlat(db, n, "", owner, Alias, c, false, now, after);
    if Closed(db.rows) { CreateClosed(db, n, "", owner, Alias, c, false, now, after); }
  }

  lemma EditsKeep(db: Db, cfg: Config, req: Request, after: Db)
    requires Inv(db) && Flat(db.rows) && Answer(db, cfg, req) == Success(after) && (req.Patch? || req.Details?)
    ensures Flat(after.rows)
    ensures Closed(db.rows) ==> Closed(after.rows)
  {
    Found(db, ToLower(req.name));
    var l := Find(db.rows, ToLower(req.name)).value;
    match req
    case Patch(_, m) => EditFlat(db, cfg, l, Masked(l, m), after);
    case Details(_, lt, target, aliasTarget, auth) => EditFlat(db, cfg, l, Form(lt, target, aliasTarget, auth), after);
  }

  /** Every request that creates no link and is carried out keeps a flat state flat, and a
      closed one closed when it spares targets. */
  lemma OthersKeep(db: Db, cfg: Config, req: Request, after: Db)
    requires Inv(db) && Flat(db.rows) && Answer(db, cfg, req) == Success(after)
    requires !req.New? && !req.NewAlias?
    ensures Flat(after.rows)
    ensures Closed(db.rows) && SparesTargets(db, req) ==> Closed(after.rows)
  {
    match req
    case Patch(_, _) => EditsKeep(db, cfg, req, after);
    case Details(_, _, _, _, _) => EditsKeep(db, cfg, req, after);
    case Remove(name) =>
      Found(db, ToLower(name));
      DeleteKeeps(db, Find(db.rows, ToLower(name)).value.id, after);
    case _ =>
      SameGraphKeeps(db, after);
  }

  /** For every request in every flat state: the next state is flat, unless the request is
      carried out and creates an alias under a name that dangling aliases reference. */
  lemma FlatStepExactly(db: Db, cfg: Config, req: Request)
    requires Inv(db) && Flat(db.rows)
    ensures Flat(Step(db, cfg, req).rows) <==> (Accepts(db, cfg, req) ==> NameUnreferenced(db, req))
  {
    AcceptedExactly(db, cfg, req);
    var answer := Answer(db, cfg, req);
    if answer.Success? {
      match req
      case New(p, owner, now) => NewFlat(db, cfg, p, owner, now, answer.value);
      case NewAlias(canonical, aliasName, owner, now) =>
        NewAliasFlat(db, cfg, canonical, aliasName, owner, now, answer.value);
      case _ => OthersKeep(db, cfg, req, answer.value);
    }
  }

  /** In a closed flat state no such request exists, and only deleting a target can dangle. */
  lemma ClosedStep(db: Db, cfg: Config, req: Request)
    requires Inv(db) && Flat(db.rows) && Closed(db.rows) && SparesTargets(db, req)
    ensures var after := Step(db, cfg, req); Flat(after.rows) && Closed(after.rows)
  {
    var answer := Answer(db, cfg, req);
    if answer.Success? {
      match req
      case New(p, owner, now) => NewFlat(db, cfg, p, owner, now, answer.value);
      case NewAlias(canonical, aliasName, owner, now) =>
        NewAliasFlat(db, cfg, canonical, aliasName, owner, now, answer.value);
      case _ => OthersKeep(db, cfg, req, answer.value);
    }
  }

  // ---- targets -----------------------------------------------------------------------------

  /** Every link that redirects by itself has a target that passed validation. */
  ghost predicate TargetsValid(rows: Rows) {
    forall i :: i in rows && !rows[i].linkType.Alias? ==> ValidTarget(rows[i].target)
  }

  /** A field mask that makes an alias something else and names no target leaves the stored one,
      which on an alias nobody checked. */
  ghost predicate RevealsTarget(db: Db, req: Request) {
    && req.Patch? && req.mask.target.None? && req.mask.lt.Some? && !req.mask.lt.value.Alias?
    && var l := Find(db.rows, ToLower(req.name));
       l.Some? && l.value.linkType.Alias? && !ValidTarget(l.value.target)
  }

  lemma UpdateTargets(db: Db, id: int, name: string, target: string, lt: LinkType, auth: bool, after: Db)
    requires TargetsValid(db.rows) && UpdateSpec(db, id, name, target, lt, auth) == Success(after)
    ensures TargetsValid(after.rows) <==> lt.Alias? || ValidTarget(target)
  {
    assert after.rows[id].target == target && after.rows[id].linkType == lt;
  }

  lemma SetAliasTargets(db: Db, id: int, name: string, to: string, auth: bool, maxAliases: int, after: Db)
    requires TargetsValid(db.rows) && SetAliasSpec(db, id, name, to, auth, maxAliases) == Success(after)
    ensures TargetsValid(after.rows)
  {
    var own := db.rows[id].nameLower;
    forall i | i in db.rows && !after.rows[i].linkType.Alias?
      ensures !db.rows[i].linkType.Alias? && after.rows[i].target == db.rows[i].target
    {
      assert after.rows[i] == Reparented(db.rows[i], id, own, name, to, auth);
    }
  }

  lemma EditTargets(db: Db, cfg: Config, l: Link, e: Edit, after: Db)
    requires TargetsValid(db.rows) && EditLink(db, cfg, l, e) == Success(after)
    ensures TargetsValid(after.rows) <==> e.lt.Alias? || ValidTarget(e.target)
  {
    if e.lt.Alias? {
      SetAliasTargets(db, l.id, l.name, Resolve(db.rows, e.requested, l.nameLower).value, e.auth, cfg.maxAliases, after);
    } else {
      UpdateTargets(db, l.id, l.name, e.target, e.lt, e.auth, after);
    }
  }

  lemma PatchTargets(db: Db, cfg: Config, name: string, m: Mask, after: Db)
    requires Inv(db) && TargetsValid(db.rows) && PatchLink(db, cfg, name, m) == Success(after)
    ensures TargetsValid(after.rows) <==> !RevealsTarget(db, Patch(name, m))
  {
    Found(db, ToLower(name));
    var l := Find(db.rows, ToLower(name)).value;
    EditTargets(db, cfg, l, Masked(l, m), after);
  }

  lemma CreateTargets(db: Db, name: string, target: string, owner: string, lt: LinkType, to: string,
                      auth: bool, now: int, after: Db)
    requires TargetsValid(db.rows) && CreateSpec(db, name, target, owner, lt, to, auth, now) == Success(after)
    requires lt.Alias? || ValidTarget(target)
    ensures TargetsValid(after.rows)
  {
  }

  /** Every request keeps the targets valid but one kind: PATCH may turn an alias into a link with
      a target that was never validated. */
  lemma TargetsStepExactly(db: Db, cfg: Config, req: Request)
    requires Inv(db) && TargetsValid(db.rows)
    ensures TargetsValid(Step(db, cfg, req).rows) <==> (Accepts(db, cfg, req) ==> !RevealsTarget(db, req))
  {
    AcceptedExactly(db, cfg, req);
    var answer := Answer(db, cfg, req);
    if answer.Success? {
      match req
      case New(p, owner, now) =>
        var to := if p.lt.Alias? then Resolve(db.rows, p.aliasTarget, "").value else p.aliasTarget;
        CreateTargets(db, p.name, p.target, owner, p.lt, to, p.auth, now, answer.value);
      case NewAlias(canonical, aliasName, owner, now) =>
        CreateTargets(db, TrimSpace(aliasName), "", owner, Alias, ToLower(canonical), false, now, answer.value);
      case Patch(name, m) => PatchTargets(db, cfg, name, m, answer.value);
      case Details(name, lt, target, aliasTarget, auth) =>
        EditTargets(db, cfg, Find(db.rows, ToLower(name)).value, Form(lt, target, aliasTarget, auth), answer.value);
      case _ =>
    }
  }

  // ---- columns in use ------------------------------------------------------------------------

  ghost predicate AllTidy(rows: Rows) { forall i :: i in rows ==> Tidy(rows[i]) }

  /** A request to create a link that fills the column its type does not use. */
  predicate Stray(req: Request) {
    req.New? && if req.p.lt.Alias? then req.p.target != "" else req.p.aliasTarget != ""
  }

  lemma EditTidy(db: Db, cfg: Config, l: Link, e: Edit, after: Db)
    requires AllTidy(db.rows) && l.id in db.rows && db.rows[l.id] == l && EditLink(db, cfg, l, e) == Success(after)
    requires Inv(db)
    ensures AllTidy(after.rows)
  {
    if e.lt.Alias? {
      var to := Resolve(db.rows, e.requested, l.nameLower).value;
      SetAliasTidy(db, l.id, l.name, to, e.auth, cfg.maxAliases, after);
    }
  }

  lemma SetAliasTidy(db: Db, id: int, name: string, to: string, auth: bool, maxAliases: int, after: Db)
    requires AllTidy(db.rows) && Inv(db) && SetAliasSpec(db, id, name, to, auth, maxAliases) == Success(after)
    ensures AllTidy(after.rows)
  {
    var own := db.rows[id].nameLower;
    forall i | i in after.rows ensures Tidy(after.rows[i]) {
      assert after.rows[i] == Reparented(db.rows[i], id, own, name, to, auth);
      assert Tidy(db.rows[i]) && own != "";
    }
  }

  lemma CreateTidy(db: Db, name: string, target: string, owner: string, lt: LinkType, to: string,
                   auth: bool, now: int, after: Db)
    requires AllTidy(db.rows) && Inv(db) && CreateSpec(db, name, target, owner, lt, to, auth, now) == Success(after)
    ensures AllTidy(after.rows) <==> if lt.Alias? then target == "" else to == ""
  {
    forall i | i in db.rows ensures after.rows[i] == db.rows[i] {}
    assert Tidy(after.rows[db.nextId]) <==> if lt.Alias? then target == "" else to == "";
  }

  /** Stray values enter by creation alone; every edit clears the column it leaves behind. */
  lemma TidyStepExactly(db: Db, cfg: Config, req: Request)
    requires Inv(db) && AllTidy(db.rows)
    ensures AllTidy(Step(db, cfg, req).rows) <==> (Accepts(db, cfg, req) ==> !Stray(req))
  {
    AcceptedExactly(db, cfg, req);
    var answer := Answer(db, cfg, req);
    if answer.Success? {
      match req
      case New(p, owner, now) =>
        var to := if p.lt.Alias? then Resolve(db.rows, p.aliasTarget, "").value else p.aliasTarget;
        CreateTidy(db, p.name, p.target, owner, p.lt, to, p.auth, now, answer.value);
      case NewAlias(canonical, aliasName, owner, now) =>
        CreateTidy(db, TrimSpace(aliasName), "", owner, Alias, ToLower(canonical), false, now, answer.value);
      case Patch(name, m) =>
        Found(db, ToLower(name));
        EditTidy(db, cfg, Find(db.rows, ToLower(name)).value, Masked(Find(db.rows, ToLower(name)).value, m), answer.value);
      case Details(name, lt, target, aliasTarget, auth) =>
        Found(db, ToLower(name));
        EditTidy(db, cfg, Find(db.rows, ToLower(name)).value, Form(lt, target, aliasTarget, auth), answer.value);
      case _ =>
    }
  }

  // ---- the case of alias targets ---------------------------------------------------------------

  /** alias_target is compared as it is, by lookups and by search, with lower-case names. */
  ghost predicate TargetsLower(rows: Rows) { forall i :: i in rows ==> IsLower(rows[i].aliasTarget) }

  /** Every name that resolves is lower-case, being the name of a row. */
  lemma ResolvedIsLower(db: Db, target: string, self: string, to: string)
    requires Inv(db) && TargetsLower(db.rows) && Resolve(db.rows, target, self) == Success(to)
    ensures IsLower(to)
  {
    var l := Find(db.rows, target).value;
    LowerIdempotent(l.name);
  }

  lemma CreateLower(db: Db, name: string, target: string, owner: string, lt: LinkType, to: string,
                    auth: bool, now: int, after: Db)
    requires TargetsLower(db.rows) && Inv(db) && CreateSpec(db, name, target, owner, lt, to, auth, now) == Success(after)
    ensures TargetsLower(after.rows) <==> IsLower(to)
  {
    forall i | i in db.rows ensures after.rows[i] == db.rows[i] {}
    assert after.rows[db.nextId].aliasTarget == to;
  }

  lemma SetAliasLower(db: Db, id: int, name: string, to: string, auth: bool, maxAliases: int, after: Db)
    requires TargetsLower(db.rows) && IsLower(to) && SetAliasSpec(db, id, name, to, auth, maxAliases) == Success(after)
    ensures TargetsLower(after.rows)
  {
    forall i | i in after.rows ensures IsLower(after.rows[i].aliasTarget) {
      assert after.rows[i] == Reparented(db.rows[i], id, db.rows[id].nameLower, name, to, auth);
    }
  }

  lemma EditLower(db: Db, cfg: Config, l: Link, e: Edit, after: Db)
    requires Inv(db) && TargetsLower(db.rows) && EditLink(db, cfg, l, e) == Success(after)
    ensures TargetsLower(after.rows)
  {
    if e.lt.Alias? {
      var to := Resolve(db.rows, e.requested, l.nameLower).value;
      ResolvedIsLower(db, e.requested, l.nameLower, to);
      SetAliasLower(db, l.id, l.name, to, e.auth, cfg.maxAliases, after);
    } else {
      assert ToLower("") == "";
    }
  }

  lemma NewLower(db: Db, cfg: Config, p: CreateParams, owner: string, now: int, after: Db)
    requires Inv(db) && TargetsLower(db.rows) && DoCreateLink(db, cfg, p, owner, now) == Success(after)
    ensures TargetsLower(after.rows) <==> p.lt.Alias? || IsLower(p.aliasTarget)
  {
    var to := if p.lt.Alias? then Resolve(db.rows, p.aliasTarget, "").value else p.aliasTarget;
    if p.lt.Alias? { ResolvedIsLower(db, p.aliasTarget, "", to); }
    CreateLower(db, p.name, p.target, owner, p.lt, to, p.auth, now, after);
  }

  /** What the callers of doCreateLink hand over: a trimmed target, a lower-cased alias target. */
  predicate Received(req: Request) { req.New? ==> Trimmed(req.p.target) && IsLower(req.p.aliasTarget) }

  /** Alias targets stay lower-case whatever is requested, up to a creation that hands over a stray one
      in another case, to a link that is no alias: which no caller does. */
  lemma LowerStepExactly(db: Db, cfg: Config, req: Request)
    requires Inv(db) && TargetsLower(db.rows)
    ensures TargetsLower(Step(db, cfg, req).rows) <==>
              (Accepts(db, cfg, req) && req.New? ==> req.p.lt.Alias? || IsLower(req.p.aliasTarget))
  {
    AcceptedExactly(db, cfg, req);
    var answer := Answer(db, cfg, req);
    if answer.Success? {
      match req
      case New(p, owner, now) => NewLower(db, cfg, p, owner, now, answer.value);
      case NewAlias(canonical, aliasName, owner, now) =>
        LowerIdempotent(canonical);
        CreateLower(db, TrimSpace(aliasName), "", owner, Alias, ToLower(canonical), false, now, answer.value);
      case Patch(name, m) =>
        EditLower(db, cfg, Find(db.rows, ToLower(name)).value, Masked(Find(db.rows, ToLower(name)).value, m), answer.value);
      case Details(name, lt, target, aliasTarget, auth) =>
        EditLower(db, cfg, Find(db.rows, ToLower(name)).value, Form(lt, target, aliasTarget, auth), answer.value);
      case _ =>
    }
  }

  // ---- runs ------------------------------------------------------------------------------

  /** In every state of the run, the request made there meets the condition. */
  ghost predicate Throughout(db: Db, cfg: Config, reqs: seq<Request>, ok: (Db, Request) -> bool)
    decreases |reqs|
  {
    reqs != [] ==> ok(db, reqs[0]) && Throughout(Step(db, cfg, reqs[0]), cfg, reqs[1..], ok)
  }

  /** The condition under which flatness survives a request, seen from its state. */
  ghost function KeepsFlat(cfg: Config): (Db, Request) -> bool {
    (db, req) => Accepts(db, cfg, req) ==> NameUnreferenced(db, req)
  }

  ghost function KeepsTargets(): (Db, Request) -> bool { (db, req) => SparesTargets(db, req) }

  lemma {:induction false} RunSplit(db: Db, cfg: Config, reqs: seq<Request>, k: nat)
    requires k < |reqs|
    ensures Run(db, cfg, reqs[..k + 1]) == Step(Run(db, cfg, reqs[..k]), cfg, reqs[k])
    decreases k
  {
    if k == 0 {
      assert reqs[..1][1..] == [];
    } else {
      assert reqs[..k + 1][1..] == reqs[1..][..k] && reqs[..k][1..] == reqs[1..][..k - 1];
      RunSplit(Step(db, cfg, reqs[0]), cfg, reqs[1..], k - 1);
    }
  }

  /** Every run from a flat state stays flat to the end, and one hop means what an alias means,
      when no step creates an alias under a referenced name. */
  lemma {:induction false} FlatRun(db: Db, cfg: Config, reqs: seq<Request>)
    requires Inv(db) && Flat(db.rows) && Throughout(db, cfg, reqs, KeepsFlat(cfg))
    ensures var end := Run(db, cfg, reqs).rows;
            Flat(end) && Indexed(end) && forall n: string :: OneHop(end, n) == Chase(end, n, {})
    decreases |reqs|
  {
    if reqs == [] {
      forall n: string { FlatMeansOneHop(db.rows, n); }
    } else {
      FlatStepExactly(db, cfg, reqs[0]);
      InvStep(db, cfg, reqs[0]);
      FlatRun(Step(db, cfg, reqs[0]), cfg, reqs[1..]);
    }
  }

  /** And only then: a run is flat in all its states exactly when no step does that. */
  lemma {:induction false} FlatRunExactly(db: Db, cfg: Config, reqs: seq<Request>)
    requires Inv(db) && Flat(db.rows)
    ensures (forall k :: 0 <= k <= |reqs| ==> Flat(Run(db, cfg, reqs[..k]).rows))
       <==> Throughout(db, cfg, reqs, KeepsFlat(cfg))
    decreases |reqs|
  {
    if reqs != [] {
      var next, rest := Step(db, cfg, reqs[0]), reqs[1..];
      FlatStepExactly(db, cfg, reqs[0]);
      InvStep(db, cfg, reqs[0]);
      forall k | 0 < k <= |reqs| ensures Run(db, cfg, reqs[..k]) == Run(next, cfg, rest[..k - 1]) {
        assert reqs[..k][1..] == rest[..k - 1];
      }
      if Flat(next.rows) {
        FlatRunExactly(next, cfg, rest);
        forall k | 0 <= k <= |rest| ensures Run(next, cfg, rest[..k]) == Run(db, cfg, reqs[..k + 1]) {}
      } else {
        assert Run(db, cfg, reqs[..1]) == Run(next, cfg, rest[..0]) == next;
      }
    }
  }

  /** While no targeted link is deleted, every alias target exists and is no alias. */
  lemma {:induction false} ClosedRun(db: Db, cfg: Config, reqs: seq<Request>)
    requires Inv(db) && Flat(db.rows) && Closed(db.rows) && Throughout(db, cfg, reqs, KeepsTargets())
    ensures Flat(Run(db, cfg, reqs).rows) && Closed(Run(db, cfg, reqs).rows)
    decreases |reqs|
  {
    if reqs != [] {
      ClosedStep(db, cfg, reqs[0]);
      InvStep(db, cfg, reqs[0]);
      ClosedRun(Step(db, cfg, reqs[0]), cfg, reqs[1..]);
    }
  }

  /** So with those callers alias targets are lower-case throughout every run. */
  lemma {:induction false} LowerRun(db: Db, cfg: Config, reqs: seq<Request>)
    requires Inv(db) && TargetsLower(db.rows) && forall req :: req in reqs ==> Received(req)
    ensures TargetsLower(Run(db, cfg, reqs).rows)
    decreases |reqs|
  {
    if reqs != [] {
      assert Received(reqs[0]);
      LowerStepExactly(db, cfg, reqs[0]);
      InvStep(db, cfg, reqs[0]);
      LowerRun(Step(db, cfg, reqs[0]), cfg, reqs[1..]);
    }
  }

  /** The alias limit holds throughout every run whatsoever. */
  lemma {:induction false} LimitRun(db: Db, cfg: Config, reqs: seq<Request>)
    requires Inv(db) && WithinLimit(db.rows, cfg.maxAliases)
    ensures WithinLimit(Run(db, cfg, reqs).rows, cfg.maxAliases)
    decreases |reqs|
  {
    if reqs != [] {
      LimitStep(db, cfg, reqs[0]);
      InvStep(db, cfg, reqs[0]);
      LimitRun(Step(db, cfg, reqs[0]), cfg, reqs[1..]);
    }
  }

  /** The table of the counterexample: two links that are no aliases. */
  ghost predicate TwoLinks(db: Db, a: Link, b: Link) {
    && db == Db(map[1 := a, 2 := b], {}, 3) && a.id == 1 && b.id == 2
    && a.nameLower == ToLower(a.name) && b.nameLower == ToLower(b.name) && a.nameLower != b.nameLower
    && a.name != "" && ValidName(b.name) && Trimmed(b.name)
    && !a.linkType.Alias? && !b.linkType.Alias? && a.aliasTarget == b.aliasTarget == ""
  }

  lemma TwoLinksFlat(db: Db, a: Link, b: Link)
    requires TwoLinks(db, a, b)
    ensures Inv(db) && Flat(db.rows)
  {
  }

  lemma AliasAdded(db: Db, cfg: Config, a: Link, b: Link, x: string, owner: string)
    requires TwoLinks(db, a, b) && cfg.maxAliases > 0 && ValidName(x) && Trimmed(x)
    requires ToLower(x) != a.nameLower && ToLower(x) != b.nameLower
    ensures var row := NewRow(3, x, "", owner, Alias, b.nameLower, false, 0);
            Step(db, cfg, NewAlias(b.name, x, owner, 0)) == Db(map[1 := a, 2 := b, 3 := row], {}, 4)
  {
    TrimFixpoint(x);
    TwoLinksFlat(db, a, b);
    FindRow(db.rows, 2);
    assert Targeting(db.rows, b.nameLower) == {};
  }

  lemma TargetRemoved(db: Db, cfg: Config, a: Link, b: Link, x: Link)
    requires Inv(db) && db == Db(map[1 := a, 2 := b, 3 := x], {}, 4) && b.nameLower == ToLower(b.name)
    ensures Step(db, cfg, Remove(b.name)) == Db(map[1 := a, 3 := x], {}, 4)
  {
    assert db.rows[2] == b;
    FindRow(db.rows, 2);
    assert db.rows - {2} == map[1 := a, 3 := x];
  }

  lemma NameTakenBack(db: Db, cfg: Config, a: Link, b: Link, x: Link, owner: string)
    requires Inv(db) && Flat(db.rows) && db == Db(map[1 := a, 3 := x], {}, 4) && cfg.maxAliases > 0
    requires a.nameLower == ToLower(a.name) && !a.linkType.Alias? && a.aliasTarget == ""
    requires x.linkType.Alias? && x.aliasTarget == ToLower(b.name) && x.nameLower != ToLower(b.name)
    requires ValidName(b.name) && Trimmed(b.name) && a.nameLower != ToLower(b.name)
    ensures !Flat(Step(db, cfg, NewAlias(a.name, b.name, owner, 0)).rows)
  {
    TrimFixpoint(b.name);
    assert db.rows[1] == a && db.rows[3] == x;
    FindRow(db.rows, 1);
    assert Targeting(db.rows, a.nameLower) == {};
    assert 3 in AliasesOf(db.rows, ToLower(b.name));
    FlatStepExactly(db, cfg, NewAlias(a.name, b.name, owner, 0));
  }

  lemma ThreeSteps(db: Db, cfg: Config, r: Request, s: Request, t: Request)
    ensures Run(db, cfg, [r, s, t]) == Step(Step(Step(db, cfg, r), cfg, s), cfg, t)
  {
    assert [r, s, t][..3] == [r, s, t];
    RunSplit(db, cfg, [r, s, t], 2);
    RunSplit(db, cfg, [r, s, t], 1);
    RunSplit(db, cfg, [r, s, t], 0);
    assert [r, s, t][..2][..1] == [r, s, t][..1];
  }

  /** A run that breaks flatness, from any two links a and b: x becomes an alias of b, b is
      deleted, and b comes back as an alias of a, which leaves x two hops away from a. */
  lemma DanglingNameBreaksFlatness(db: Db, cfg: Config, a: Link, b: Link, x: string, owner: string)
    requires TwoLinks(db, a, b) && cfg.maxAliases > 0 && ValidName(x) && Trimmed(x)
    requires ToLower(x) != a.nameLower && ToLower(x) != b.nameLower
    ensures Inv(db) && Flat(db.rows)
    ensures !Flat(Run(db, cfg, [NewAlias(b.name, x, owner, 0), Remove(b.name), NewAlias(a.name, b.name, owner, 0)]).rows)
  {
    var add, remove, last := NewAlias(b.name, x, owner, 0), Remove(b.name), NewAlias(a.name, b.name, owner, 0);
    var row := NewRow(3, x, "", owner, Alias, b.nameLower, false, 0);
    TwoLinksFlat(db, a, b);
    AliasAdded(db, cfg, a, b, x, owner);
    InvStep(db, cfg, add);
    var db1 := Step(db, cfg, add);
    TargetRemoved(db1, cfg, a, b, row);
    InvStep(db1, cfg, remove);
    var db2 := Step(db1, cfg, remove);
    assert Flat(db2.rows);
    NameTakenBack(db2, cfg, a, b, row, owner);
    ThreeSteps(db, cfg, add, remove, last);
  }

  // ---- a target nobody checked ------------------------------------------------------------------

  const NO_LINKS := Db(map[], {}, 1)

  function Plain(name: string, target: string): Request { New(CreateParams(name, target, Simple, "", false), "o", 0) }

  function AliasWith(name: string, of: string, target: string): Request {
    New(CreateParams(name, target, Alias, ToLower(of), false), "o", 0)
  }

  function MakeSimple(name: string): Request { Patch(name, Mask(Some(Simple), None, None, None)) }

  lemma PlainAdded(cfg: Config, x: string, t: string)
    requires ValidName(x) && ValidTarget(t)
    ensures Step(NO_LINKS, cfg, Plain(x, t)) == Db(map[1 := NewRow(1, x, t, "o", Simple, "", false, 0)], {}, 2)
  {
  }

  lemma AliasOnTop(cfg: Config, x: string, t: string, y: string, u: string)
    requires ValidName(y) && x != "" && ToLower(x) != ToLower(y) && cfg.maxAliases > 0
    ensures var row := NewRow(1, x, t, "o", Simple, "", false, 0);
            Step(Db(map[1 := row], {}, 2), cfg, AliasWith(y, x, u)) ==
              Db(map[1 := row, 2 := NewRow(2, y, u, "o", Alias, ToLower(x), false, 0)], {}, 3)
  {
    var row := NewRow(1, x, t, "o", Simple, "", false, 0);
    var rows: Rows := map[1 := row];
    assert rows[1] == row;
    FindRow(rows, 1);
    assert Targeting(rows, ToLower(x)) == {};
  }

  lemma AliasRevealed(db: Db, cfg: Config, y: Link, x: Link)
    requires db == Db(map[1 := x, 2 := y], {}, 3) && Inv(db) && y.linkType.Alias?
    ensures var after := Step(db, cfg, MakeSimple(y.name));
            2 in after.rows && after.rows[2].linkType.Simple? && after.rows[2].target == y.target
  {
    assert db.rows[1] == x && db.rows[2] == y;
    FindRow(db.rows, 2);
    OwnNameFree(db, y);
  }

  /** Three requests on an empty store: a link x, an alias y of it created with any text u for a
      target, and the PATCH that makes y simple: from then on y redirects to u. */
  lemma UncheckedTarget(cfg: Config, x: string, t: string, y: string, u: string)
    requires ValidName(x) && ValidTarget(t) && ValidName(y) && ToLower(x) != ToLower(y) && cfg.maxAliases > 0
    requires !ValidTarget(u) && Trimmed(t) && Trimmed(u)
    ensures Received(Plain(x, t)) && Received(AliasWith(y, x, u)) && Received(MakeSimple(y))
    ensures var two := Run(NO_LINKS, cfg, [Plain(x, t), AliasWith(y, x, u)]);
            Inv(two) && TargetsValid(two.rows)
    ensures var three := Run(NO_LINKS, cfg, [Plain(x, t), AliasWith(y, x, u), MakeSimple(y)]);
            && !TargetsValid(three.rows)
            && 2 in three.rows && three.rows[2].linkType.Simple? && three.rows[2].target == u
  {
    LowerIdempotent(x);
    var a, b, c := Plain(x, t), AliasWith(y, x, u), MakeSimple(y);
    var row, last := NewRow(1, x, t, "o", Simple, "", false, 0), NewRow(2, y, u, "o", Alias, ToLower(x), false, 0);
    PlainAdded(cfg, x, t);
    AliasOnTop(cfg, x, t, y, u);
    TwoSteps(NO_LINKS, cfg, a, b);
    ThreeSteps(NO_LINKS, cfg, a, b, c);
    var two := Db(map[1 := row, 2 := last], {}, 3);
    InvStep(NO_LINKS, cfg, a);
    InvStep(Step(NO_LINKS, cfg, a), cfg, b);
    AliasRevealed(two, cfg, last, row);
  }

  lemma TwoSteps(db: Db, cfg: Config, r: Request, s: Request)
    ensures Run(db, cfg, [r, s]) == Step(Step(db, cfg, r), cfg, s)
  {
    assert [r, s][..2] == [r, s] && [r, s][..0] == [];
    RunSplit(db, cfg, [r, s], 1);
    RunSplit(db, cfg, [r, s], 0);
  }

  lemma SameText(s: string)
    requires forall k :: 0 <= k < |s| ==> LowerChar(s[k]) == s[k]
    ensures ToLower(s) == s
  {
    forall k | 0 <= k < |s| ensures ToLower(s)[k] == s[k] { LowerAt(s, k); }
  }

  lemma DocsNames()
    ensures ValidName("docs") && ValidName("d") && ToLower("docs") != ToLower("d")
  {
    SameText("docs");
    SameText("d");
    assert |"docs"| == 4 && |"d"| == 1;
  }

  lemma DocsTarget()
    ensures ValidTarget("https://docs")
  {
    SameText("https://docs");
  }

  lemma DocsTrimmed()
    ensures Trimmed("https://docs") && Trimmed("javascript:x")
  {
  }

  lemma NoWebTarget(u: string)
    requires u != "" && LowerChar(u[0]) != 'h'
    ensures !ValidTarget(u)
  {
    LowerAt(u, 0);
  }

  /** In plain words: docs, its alias d with the target javascript:x, and d made simple. */
  lemma ScriptTarget(cfg: Config)
    requires cfg.maxAliases > 0
    ensures var three := Run(NO_LINKS, cfg, [Plain("docs", "https://docs"), AliasWith("d", "docs", "javascript:x"),
                                             MakeSimple("d")]);
            2 in three.rows && three.rows[2].linkType.Simple? && three.rows[2].target == "javascript:x"
  {
    DocsNames();
    DocsTarget();
    DocsTrimmed();
    NoWebTarget("javascript:x");
    UncheckedTarget(cfg, "docs", "https://docs", "d", "javascript:x");
  }
}
