/** What a request leaves in the tables, and how it is refused, said of the request and of the tables
    before and after. */
module Writes {
  import opened Common
  import opened Text
  import opened LinkStore
  import opened AliasGraph
  import opened Validate
  import opened Handlers
  import opened Invariants
  import opened Effects

  ghost predicate Named(rows: Rows, name: string, id: int) { id in rows && rows[id].nameLower == ToLower(name) }

  /** Where a requested alias target comes to, one hop on: an existing name. */
  ghost predicate ComesTo(rows: Rows, target: string, to: string) {
    && (exists i :: i in rows && rows[i].nameLower == target
                    && to == if rows[i].linkType.Alias? then rows[i].aliasTarget else target)
    && (exists j :: j in rows && rows[j].nameLower == to)
  }

  /** Row id has the type, the target of that type, and the flag; its name stays, and the column
      that its type does not use is empty. */
  ghost predicate Edited(a: Db, b: Db, id: int, lt: LinkType, requested: string, target: string, auth: bool)
    requires id in a.rows
  {
    if lt.Alias? then exists to :: ComesTo(a.rows, requested, to) && Aliased(a, b, id, a.rows[id].name, to, auth)
    else Retyped(a, b, id, a.rows[id].name, target, lt, auth)
  }

  /** A PATCH changes what its mask names, trimmed, and keeps what it does not. */
  ghost predicate Patched(a: Db, b: Db, id: int, m: Mask)
    requires id in a.rows
  {
    var l := a.rows[id];
    Edited(a, b, id,
           if m.lt.Some? then m.lt.value else l.linkType,
           if m.aliasTarget.Some? then ToLower(TrimSpace(m.aliasTarget.value)) else l.aliasTarget,
           if m.target.Some? then TrimSpace(m.target.value) else l.target,
           if m.auth.Some? then m.auth.value else l.requireAuth)
  }

  /** What a request that is carried out makes of tables a. */
  ghost predicate Wrote(a: Db, req: Request, b: Db) {
    match req
    case New(p, owner, now) =>
      if p.lt.Alias? then
        exists to :: ComesTo(a.rows, p.aliasTarget, to) && Added(a, b, p.name, p.target, owner, Alias, to, p.auth, now, [])
      else Added(a, b, p.name, p.target, owner, p.lt, p.aliasTarget, p.auth, now, [])
    case NewAlias(canonical, aliasName, owner, now) =>
      Added(a, b, TrimSpace(aliasName), "", owner, Alias, ToLower(canonical), false, now, [])
    case Patch(name, m) => exists id :: Named(a.rows, name, id) && Patched(a, b, id, m)
    case Details(name, lt, target, aliasTarget, auth) =>
      exists id :: Named(a.rows, name, id)
                   && Edited(a, b, id, lt, ToLower(TrimSpace(aliasTarget)), TrimSpace(target), auth)
    case Remove(name) => exists id :: Named(a.rows, name, id) && Deleted(a, b, id)
    case Transfer(name, owner) => exists id :: Named(a.rows, name, id) && Transferred(a, b, id, TrimSpace(owner))
    case Reassign(fromOwner, toOwner) => Reassigned(a, b, fromOwner, toOwner)
    case Counted(id, delta, now) => Recorded(a, b, id, delta, now)
  }

  lemma ResolvedComesTo(rows: Rows, target: string, self: string, to: string, x: string)
    requires Indexed(rows) && Resolve(rows, target, self) == Success(to)
    ensures ComesTo(rows, target, x) <==> x == to
  {
    var l := Find(rows, target).value;
    if l.linkType.Alias? { assert rows[Find(rows, to).value.id].nameLower == to; }
    if i :| i in rows && rows[i].nameLower == target { FindRow(rows, i); }
  }

  /** What is accepted as an alias target is just where a redirect by that name ends up, whatever the
      graph, unless that is the link itself. */
  lemma ResolveIsOneHop(rows: Rows, target: string, self: string)
    requires Indexed(rows)
    ensures var hop, to := OneHop(rows, target), Resolve(rows, target, self);
            && (hop.Row? ==> hop.id in rows)
            && (to.Success? <==> hop.Row? && (self == "" || (target != self && rows[hop.id].nameLower != self)))
            && (to.Success? ==> to.value == rows[hop.id].nameLower)
  {
  }

  lemma NamedRow(db: Db, name: string, id: int)
    requires Inv(db) && Named(db.rows, name, id)
    ensures Find(db.rows, ToLower(name)) == Some(db.rows[id])
  {
    FindRow(db.rows, id);
  }

  lemma EditExactly(db: Db, cfg: Config, id: int, e: Edit, after: Db)
    requires Inv(db) && id in db.rows && EditLink(db, cfg, db.rows[id], e).Success?
    ensures EditLink(db, cfg, db.rows[id], e) == Success(after) <==>
              Edited(db, after, id, e.lt, e.requested, e.target, e.auth)
  {
    var l := db.rows[id];
    if e.lt.Alias? {
      var to := Resolve(db.rows, e.requested, l.nameLower).value;
      forall x { ResolvedComesTo(db.rows, e.requested, l.nameLower, to, x); }
      SetAliasExactly(db, after, id, l.name, to, e.auth, cfg.maxAliases);
    } else {
      UpdateExactly(db, after, id, l.name, e.target, e.lt, e.auth);
    }
  }

  lemma NewExactly(db: Db, cfg: Config, p: CreateParams, owner: string, now: int, after: Db)
    requires Inv(db) && DoCreateLink(db, cfg, p, owner, now).Success?
    ensures DoCreateLink(db, cfg, p, owner, now) == Success(after) <==> Wrote(db, New(p, owner, now), after)
  {
    if p.lt.Alias? {
      var to := Resolve(db.rows, p.aliasTarget, "").value;
      forall x { ResolvedComesTo(db.rows, p.aliasTarget, "", to, x); }
      CreateExactly(db, after, p.name, p.target, owner, Alias, to, p.auth, now);
    } else {
      CreateExactly(db, after, p.name, p.target, owner, p.lt, p.aliasTarget, p.auth, now);
    }
  }

  lemma NewAliasExactly(db: Db, cfg: Config, canonical: string, aliasName: string, owner: string, now: int, after: Db)
    requires Inv(db) && CreateAlias(db, cfg, canonical, aliasName, owner, now).Success?
    ensures CreateAlias(db, cfg, canonical, aliasName, owner, now) == Success(after) <==>
              Wrote(db, NewAlias(canonical, aliasName, owner, now), after)
  {
    CreateExactly(db, after, TrimSpace(aliasName), "", owner, Alias, ToLower(canonical), false, now);
  }

  lemma PatchExactly(db: Db, cfg: Config, name: string, m: Mask, after: Db)
    requires Inv(db) && PatchLink(db, cfg, name, m).Success?
    ensures PatchLink(db, cfg, name, m) == Success(after) <==> Wrote(db, Patch(name, m), after)
  {
    var l := Find(db.rows, ToLower(name)).value;
    Found(db, ToLower(name));
    forall id | Named(db.rows, name, id) ensures id == l.id { NamedRow(db, name, id); }
    EditExactly(db, cfg, l.id, Masked(l, m), after);
    assert Named(db.rows, name, l.id);
  }

  lemma DetailsExactly(db: Db, cfg: Config, name: string, lt: LinkType, target: string, aliasTarget: string, auth: bool,
                       after: Db)
    requires Inv(db) && PostDetails(db, cfg, name, lt, target, aliasTarget, auth).Success?
    ensures PostDetails(db, cfg, name, lt, target, aliasTarget, auth) == Success(after) <==>
              Wrote(db, Details(name, lt, target, aliasTarget, auth), after)
  {
    var l := Find(db.rows, ToLower(name)).value;
    Found(db, ToLower(name));
    forall id | Named(db.rows, name, id) ensures id == l.id { NamedRow(db, name, id); }
    EditExactly(db, cfg, l.id, Form(lt, target, aliasTarget, auth), after);
    assert Named(db.rows, name, l.id);
  }

  lemma RemoveExactly(db: Db, name: string, after: Db)
    requires Inv(db) && RemoveLink(db, name).Success?
    ensures RemoveLink(db, name) == Success(after) <==> Wrote(db, Remove(name), after)
  {
    var l := Find(db.rows, ToLower(name)).value;
    Found(db, ToLower(name));
    forall id | Named(db.rows, name, id) ensures id == l.id { NamedRow(db, name, id); }
    DeleteExactly(db, after, l.id);
    assert Named(db.rows, name, l.id);
  }

  lemma TransferLinkExactly(db: Db, name: string, owner: string, after: Db)
    requires Inv(db) && TransferLink(db, name, owner).Success?
    ensures TransferLink(db, name, owner) == Success(after) <==> Wrote(db, Transfer(name, owner), after)
  {
    var l := Find(db.rows, ToLower(name)).value;
    Found(db, ToLower(name));
    forall id | Named(db.rows, name, id) ensures id == l.id { NamedRow(db, name, id); }
    TransferExactly(db, after, l.id, TrimSpace(owner));
    assert Named(db.rows, name, l.id);
  }

  /** A request that passes its guards leaves exactly the tables that Wrote describes, down to every
      column of every row; any other leaves the tables as they are. */
  lemma StepExactly(db: Db, cfg: Config, req: Request, after: Db)
    requires Inv(db)
    ensures Step(db, cfg, req) == after <==> if Accepts(db, cfg, req) then Wrote(db, req, after) else after == db
  {
    AcceptedExactly(db, cfg, req);
    if Answer(db, cfg, req).Success? {
      match req
      case New(p, owner, now) => NewExactly(db, cfg, p, owner, now, after);
      case NewAlias(canonical, aliasName, owner, now) => NewAliasExactly(db, cfg, canonical, aliasName, owner, now, after);
      case Patch(name, m) => PatchExactly(db, cfg, name, m, after);
      case Details(name, lt, target, aliasTarget, auth) =>
        DetailsExactly(db, cfg, name, lt, target, aliasTarget, auth, after);
      case Remove(name) => RemoveExactly(db, name, after);
      case Transfer(name, owner) => TransferLinkExactly(db, name, owner, after);
      case Reassign(fromOwner, toOwner) => ReassignExactly(db, after, fromOwner, toOwner);
      case Counted(id, delta, now) => AddUsesExactly(db, after, id, delta, now);
    }
  }

  // ---- refusals ------------------------------------------------------------------------------------

  /** The link that the request is about does not exist. */
  ghost predicate NamesNone(db: Db, req: Request) {
    match req
    case NewAlias(canonical, _, _, _) => forall id :: !Named(db.rows, canonical, id)
    case Patch(name, _) => forall id :: !Named(db.rows, name, id)
    case Details(name, _, _, _, _) => forall id :: !Named(db.rows, name, id)
    case Remove(name) => forall id :: !Named(db.rows, name, id)
    case Transfer(name, _) => forall id :: !Named(db.rows, name, id)
    case _ => false
  }

  /** Only the name of the link to be created is in the way. */
  ghost predicate Clashes(db: Db, cfg: Config, req: Request) {
    match req
    case New(p, _, _) =>
      && ValidName(p.name) && Taken(db.rows, ToLower(p.name))
      && if p.lt.Alias? then AliasAccepted(db, cfg, p.aliasTarget, "", 0) else TargetAccepted(cfg, p.lt, p.target, true)
    case NewAlias(canonical, aliasName, _, _) =>
      && ValidName(TrimSpace(aliasName)) && Taken(db.rows, ToLower(TrimSpace(aliasName)))
      && |Targeting(db.rows, ToLower(canonical))| < cfg.maxAliases
      && exists id :: Named(db.rows, canonical, id) && !db.rows[id].linkType.Alias?
    case _ => false
  }

  /** The new target of link l has no room for it and its aliases. */
  ghost predicate NoRoom(db: Db, cfg: Config, l: Link, requested: string) {
    && requested != "" && Resolve(db.rows, requested, l.nameLower).Success?
    && |Targeting(db.rows, Resolve(db.rows, requested, l.nameLower).value)| + |Targeting(db.rows, l.nameLower)|
         >= cfg.maxAliases
  }

  /** Only the alias limit is. */
  ghost predicate OverLimit(db: Db, cfg: Config, req: Request) {
    match req
    case NewAlias(canonical, aliasName, _, _) =>
      && ValidName(TrimSpace(aliasName)) && |Targeting(db.rows, ToLower(canonical))| >= cfg.maxAliases
      && exists id :: Named(db.rows, canonical, id) && !db.rows[id].linkType.Alias?
    case Patch(name, m) =>
      exists id :: && Named(db.rows, name, id)
                   && (if m.lt.Some? then m.lt.value.Alias? else db.rows[id].linkType.Alias?)
                   && NoRoom(db, cfg, db.rows[id], if m.aliasTarget.Some? then ToLower(TrimSpace(m.aliasTarget.value))
                                                   else db.rows[id].aliasTarget)
    case Details(name, lt, _, aliasTarget, _) =>
      exists id :: Named(db.rows, name, id) && lt.Alias? && NoRoom(db, cfg, db.rows[id], ToLower(TrimSpace(aliasTarget)))
    case _ => false
  }

  lemma NamedExactly(db: Db, name: string)
    requires Inv(db)
    ensures Find(db.rows, ToLower(name)).None? <==> forall id :: !Named(db.rows, name, id)
    ensures forall id :: Named(db.rows, name, id) ==> Find(db.rows, ToLower(name)) == Some(db.rows[id])
    ensures Find(db.rows, ToLower(name)).Some? ==> Named(db.rows, name, Find(db.rows, ToLower(name)).value.id)
  {
    forall id | Named(db.rows, name, id) ensures Find(db.rows, ToLower(name)) == Some(db.rows[id]) { NamedRow(db, name, id); }
    if Find(db.rows, ToLower(name)).Some? { Found(db, ToLower(name)); }
  }

  lemma EditRefusal(db: Db, cfg: Config, l: Link, e: Edit)
    requires Inv(db) && l.id in db.rows && db.rows[l.id] == l
    ensures var r := EditLink(db, cfg, l, e);
            && r != Failure(NoSuchLink) && r != Failure(Conflict)
            && (r == Failure(Unprocessable) <==> e.lt.Alias? && NoRoom(db, cfg, l, e.requested))
  {
    OwnNameFree(db, l);
  }

  lemma EditRefused(db: Db, cfg: Config, req: Request)
    requires Inv(db) && (req.Patch? || req.Details?)
    ensures var r := Answer(db, cfg, req);
            && (r == Failure(NoSuchLink) <==> NamesNone(db, req)) && r != Failure(Conflict)
            && (r == Failure(Unprocessable) <==> OverLimit(db, cfg, req))
  {
    NamedExactly(db, req.name);
    var l := Find(db.rows, ToLower(req.name));
    if l.Some? {
      match req
      case Patch(_, m) => EditRefusal(db, cfg, l.value, Masked(l.value, m));
      case Details(_, lt, target, aliasTarget, auth) => EditRefusal(db, cfg, l.value, Form(lt, target, aliasTarget, auth));
    }
  }

  lemma CreationRefused(db: Db, cfg: Config, req: Request)
    requires Inv(db) && (req.New? || req.NewAlias?)
    ensures var r := Answer(db, cfg, req);
            && (r == Failure(NoSuchLink) <==> NamesNone(db, req))
            && (r == Failure(Conflict) <==> Clashes(db, cfg, req))
            && (r == Failure(Unprocessable) <==> OverLimit(db, cfg, req))
  {
    if req.NewAlias? { NamedExactly(db, req.canonical); }
  }

  /** Every answer that is no success, exactly: not found, conflict and unprocessable by their own
      causes, everything else refused as a bad request. */
  lemma StatusExactly(db: Db, cfg: Config, req: Request)
    requires Inv(db)
    ensures var r := Answer(db, cfg, req);
            && (r.Success? <==> Accepts(db, cfg, req))
            && (r == Failure(NoSuchLink) <==> NamesNone(db, req))
            && (r == Failure(Conflict) <==> Clashes(db, cfg, req))
            && (r == Failure(Unprocessable) <==> OverLimit(db, cfg, req))
            && (r == Failure(BadRequest) <==>
                  !Accepts(db, cfg, req) && !NamesNone(db, req) && !Clashes(db, cfg, req) && !OverLimit(db, cfg, req))
  {
    AcceptedExactly(db, cfg, req);
    match req
    case New(_, _, _) => CreationRefused(db, cfg, req);
    case NewAlias(_, _, _, _) => CreationRefused(db, cfg, req);
    case Patch(_, _) => EditRefused(db, cfg, req);
    case Details(_, _, _, _, _) => EditRefused(db, cfg, req);
    case Remove(name) =>
      NamedExactly(db, name);
      if Find(db.rows, ToLower(name)).Some? { Found(db, ToLower(name)); }
    case Transfer(name, _) =>
      NamedExactly(db, name);
      if Find(db.rows, ToLower(name)).Some? { Found(db, ToLower(name)); }
    case _ =>
  }

  /** So a PATCH that names a target for a link of its own is refused when the target is none. */
  lemma NamedTargetIsChecked(db: Db, cfg: Config, name: string, m: Mask, id: int)
    requires Inv(db) && Named(db.rows, name, id) && m.target.Some? && !ValidTarget(TrimSpace(m.target.value))
    requires if m.lt.Some? then !m.lt.value.Alias? else !db.rows[id].linkType.Alias?
    ensures Answer(db, cfg, Patch(name, m)) == Failure(BadRequest) && Step(db, cfg, Patch(name, m)) == db
  {
    NamedRow(db, name, id);
    NamedExactly(db, name);
    StatusExactly(db, cfg, Patch(name, m));
  }
}
