/** require_auth and aliases: who may reach a link that asks for a sign-in, and which requests keep it
    so. The link asked for decides, not the one at the end of the hop. */
module Protection {
  import opened Common
  import opened Text
  import opened LinkStore
  import opened AliasGraph
  import opened Handlers
  import opened Invariants
  import R = Redirect

  /** No public alias names a link that asks for a sign-in. */
  ghost predicate Protected(rows: Rows) {
    forall i, j :: (i in rows && j in rows && rows[i].linkType.Alias? && !rows[i].requireAuth
                    && rows[j].nameLower == rows[i].aliasTarget) ==> !rows[j].requireAuth
  }

  /** The visit opens a link that asks for a sign-in, without one. */
  ghost predicate Slips(rows: Rows, engine: R.Engine, v: R.Visit) {
    v.email.None? && R.Opened(rows, engine, v).Some? && R.Opened(rows, engine, v).value.requireAuth
  }

  lemma PublicAliasSlips(rows: Rows, engine: R.Engine, i: int, j: int)
    requires Indexed(rows) && !engine.authForAll && i in rows && j in rows
    requires rows[i].linkType.Alias? && !rows[i].requireAuth
    requires rows[j].nameLower == rows[i].aliasTarget && rows[j].requireAuth
    ensures Slips(rows, engine, R.Visit(rows[i].name, "", "", "", None, true))
  {
    FindRow(rows, i);
    FindRow(rows, j);
  }

  /** No visit without a sign-in opens a link that asks for one, exactly when sign-ins are asked of all
      or no public alias names such a link. */
  lemma SignInExactly(rows: Rows, engine: R.Engine)
    requires Indexed(rows)
    ensures (forall v: R.Visit :: !Slips(rows, engine, v)) <==> engine.authForAll || Protected(rows)
  {
    if !engine.authForAll && !Protected(rows) {
      var i, j :| i in rows && j in rows && rows[i].linkType.Alias? && !rows[i].requireAuth
                  && rows[j].nameLower == rows[i].aliasTarget && rows[j].requireAuth;
      PublicAliasSlips(rows, engine, i, j);
    }
    if engine.authForAll || Protected(rows) {
      forall v: R.Visit ensures !Slips(rows, engine, v) {
        R.OpenedLinksRedirect(rows, engine, v);
      }
    }
  }

  /** So then nobody is redirected by such a link who has not signed in. */
  lemma RedirectsAreSignedIn(rows: Rows, engine: R.Engine, v: R.Visit)
    requires Indexed(rows) && (engine.authForAll || Protected(rows)) && R.Serve(rows, engine, v).0.Redirected?
    ensures R.Opened(rows, engine, v).Some? && (R.Opened(rows, engine, v).value.requireAuth ==> v.email.Some?)
  {
    SignInExactly(rows, engine);
    R.OpenedLinksRedirect(rows, engine, v);
    assert !Slips(rows, engine, v);
  }

  // ---- which requests keep it ----------------------------------------------------------------------

  ghost predicate NamesProtected(rows: Rows, n: string) { Find(rows, n).Some? && Find(rows, n).value.requireAuth }

  ghost predicate PubliclyNamed(rows: Rows, n: string) {
    exists i :: i in rows && rows[i].linkType.Alias? && !rows[i].requireAuth && rows[i].aliasTarget == n
  }

  lemma NotNamed(rows: Rows, n: string, i: int)
    requires !PubliclyNamed(rows, n) && i in rows && rows[i].linkType.Alias? && !rows[i].requireAuth
    ensures rows[i].aliasTarget != n
  {
  }

  /** A new row breaks it as a public alias of a protected link, or as a protected link that a dangling
      public alias names. */
  lemma CreateProtected(db: Db, name: string, target: string, owner: string, lt: LinkType, to: string,
                        auth: bool, now: int, after: Db)
    requires Inv(db) && Protected(db.rows) && (lt.Alias? ==> to != ToLower(name))
    requires CreateSpec(db, name, target, owner, lt, to, auth, now) == Success(after)
    ensures Protected(after.rows) <==>
              (lt.Alias? && !auth ==> !NamesProtected(db.rows, to)) && (auth ==> !PubliclyNamed(db.rows, ToLower(name)))
  {
    var k, r := db.nextId, after.rows;
    forall i | i in db.rows ensures r[i] == db.rows[i] && i != k {}
    assert r[k].linkType == lt && r[k].requireAuth == auth && r[k].aliasTarget == to && r[k].nameLower == ToLower(name);
    if lt.Alias? && !auth && NamesProtected(db.rows, to) {
      var j := Find(db.rows, to).value.id;
      assert r[j].nameLower == r[k].aliasTarget;
    } else if auth && PubliclyNamed(db.rows, ToLower(name)) {
      var i :| i in db.rows && db.rows[i].linkType.Alias? && !db.rows[i].requireAuth && db.rows[i].aliasTarget == ToLower(name);
      assert r[k].nameLower == r[i].aliasTarget;
    } else {
      forall i, j | i in r && j in r && r[i].linkType.Alias? && !r[i].requireAuth && r[j].nameLower == r[i].aliasTarget
        ensures !r[j].requireAuth
      {
        if i == k && j != k { FindRow(db.rows, j); }
        if i != k && auth { NotNamed(db.rows, ToLower(name), i); }
      }
    }
  }

  /** An update breaks it exactly when it protects a link that a public alias other than itself names. */
  lemma UpdateProtected(db: Db, id: int, name: string, target: string, lt: LinkType, auth: bool, after: Db)
    requires Inv(db) && Protected(db.rows) && id in db.rows && ToLower(name) == db.rows[id].nameLower && !lt.Alias?
    requires UpdateSpec(db, id, name, target, lt, auth) == Success(after)
    ensures Protected(after.rows) <==> (auth ==> !PubliclyNamed(db.rows - {id}, ToLower(name)))
  {
    var r, n := after.rows, ToLower(name);
    forall i | i in db.rows ensures r[i].nameLower == db.rows[i].nameLower && (i != id ==> r[i] == db.rows[i]) {}
    if auth && PubliclyNamed(db.rows - {id}, n) {
      var i :| i in db.rows - {id} && db.rows[i].linkType.Alias? && !db.rows[i].requireAuth && db.rows[i].aliasTarget == n;
      assert r[id].nameLower == r[i].aliasTarget && r[id].requireAuth;
    } else {
      forall i, j | i in r && j in r && r[i].linkType.Alias? && !r[i].requireAuth && r[j].nameLower == r[i].aliasTarget
        ensures !r[j].requireAuth
      {
        if i != id && auth { NotNamed(db.rows - {id}, n, i); }
      }
    }
  }

  /** SetAlias breaks it exactly when the new target is protected and the link, or an alias that it
      brings along, is public. */
  lemma SetAliasProtected(db: Db, id: int, name: string, to: string, auth: bool, maxAliases: int, after: Db)
    requires Inv(db) && Protected(db.rows) && EditsTo(db, id, name, to, auth, maxAliases, after)
    requires to != db.rows[id].nameLower
    ensures Protected(after.rows) <==>
              (NamesProtected(db.rows, to) ==> auth && !PubliclyNamed(db.rows - {id}, db.rows[id].nameLower))
  {
    var r, own := after.rows, db.rows[id].nameLower;
    NamesAfterSetAlias(db, id, name, to, auth, maxAliases, after);
    forall i | i in db.rows
      ensures r[i].requireAuth == (if i == id then auth else db.rows[i].requireAuth)
      ensures r[i].linkType == (if i == id then Alias else db.rows[i].linkType)
      ensures r[i].aliasTarget == (if i == id || db.rows[i].aliasTarget == own then to else db.rows[i].aliasTarget)
    {
      assert r[i] == Reparented(db.rows[i], id, own, name, to, auth);
    }
    if NamesProtected(db.rows, to) && !(auth && !PubliclyNamed(db.rows - {id}, own)) {
      var j := Find(db.rows, to).value.id;
      var i := id;
      if auth {
        i :| i in db.rows - {id} && db.rows[i].linkType.Alias? && !db.rows[i].requireAuth && db.rows[i].aliasTarget == own;
      }
      assert r[i].linkType.Alias? && !r[i].requireAuth && r[j].nameLower == r[i].aliasTarget && r[j].requireAuth;
    } else {
      forall i, j | i in r && j in r && r[i].linkType.Alias? && !r[i].requireAuth && r[j].nameLower == r[i].aliasTarget
        ensures !r[j].requireAuth
      {
        FindRow(db.rows, j);
        if i != id && db.rows[i].aliasTarget == own { assert (db.rows - {id})[i].aliasTarget == own; }
      }
    }
  }

  // ---- the condition of every request --------------------------------------------------------------

  ghost predicate EditKeepsProtected(db: Db, l: Link, lt: LinkType, requested: string, auth: bool) {
    if lt.Alias? then
      var to := Resolve(db.rows, requested, l.nameLower);
      to.Success? && NamesProtected(db.rows, to.value) ==> auth && !PubliclyNamed(db.rows - {l.id}, l.nameLower)
    else auth ==> !PubliclyNamed(db.rows - {l.id}, l.nameLower)
  }

  ghost predicate CreationKeepsProtected(db: Db, p: CreateParams) {
    && (p.auth ==> !PubliclyNamed(db.rows, ToLower(p.name)))
    && (p.lt.Alias? && !p.auth ==>
          var to := Resolve(db.rows, p.aliasTarget, "");
          to.Success? ==> !NamesProtected(db.rows, to.value))
  }

  /** No public alias is made of a protected link, and no link protected that a public alias names. */
  ghost predicate KeepsProtected(db: Db, req: Request) {
    match req
    case New(p, _, _) => CreationKeepsProtected(db, p)
    case NewAlias(canonical, _, _, _) => !NamesProtected(db.rows, ToLower(canonical))
    case Patch(name, m) =>
      var l := Find(db.rows, ToLower(name));
      l.Some? ==> EditKeepsProtected(db, l.value,
                                     if m.lt.Some? then m.lt.value else l.value.linkType,
                                     if m.aliasTarget.Some? then ToLower(TrimSpace(m.aliasTarget.value))
                                     else l.value.aliasTarget,
                                     if m.auth.Some? then m.auth.value else l.value.requireAuth)
    case Details(name, lt, target, aliasTarget, auth) =>
      var l := Find(db.rows, ToLower(name));
      l.Some? ==> EditKeepsProtected(db, l.value, lt, ToLower(TrimSpace(aliasTarget)), auth)
    case _ => true
  }

  lemma ResolvesElsewhere(rows: Rows, target: string, self: string, to: string)
    requires self != "" && Resolve(rows, target, self) == Success(to)
    ensures to != self
  {
  }

  lemma EditProtected(db: Db, cfg: Config, l: Link, e: Edit, after: Db)
    requires Inv(db) && Protected(db.rows) && l.id in db.rows && db.rows[l.id] == l
    requires EditLink(db, cfg, l, e) == Success(after)
    ensures Protected(after.rows) <==> EditKeepsProtected(db, l, e.lt, e.requested, e.auth)
  {
    if e.lt.Alias? {
      var to := Resolve(db.rows, e.requested, l.nameLower).value;
      ResolvesElsewhere(db.rows, e.requested, l.nameLower, to);
      SetAliasProtected(db, l.id, l.name, to, e.auth, cfg.maxAliases, after);
    } else {
      UpdateProtected(db, l.id, l.name, e.target, e.lt, e.auth, after);
    }
  }

  lemma NewProtected(db: Db, cfg: Config, p: CreateParams, owner: string, now: int, after: Db)
    requires Inv(db) && Protected(db.rows) && DoCreateLink(db, cfg, p, owner, now) == Success(after)
    ensures Protected(after.rows) <==> CreationKeepsProtected(db, p)
  {
    var to := if p.lt.Alias? then Resolve(db.rows, p.aliasTarget, "").value else p.aliasTarget;
    CreateProtected(db, p.name, p.target, owner, p.lt, to, p.auth, now, after);
  }

  lemma NewAliasProtected(db: Db, cfg: Config, canonical: string, aliasName: string, owner: string, now: int, after: Db)
    requires Inv(db) && Protected(db.rows) && CreateAlias(db, cfg, canonical, aliasName, owner, now) == Success(after)
    ensures Protected(after.rows) <==> !NamesProtected(db.rows, ToLower(canonical))
  {
    CreateProtected(db, TrimSpace(aliasName), "", owner, Alias, ToLower(canonical), false, now, after);
  }

  lemma OthersProtected(db: Db, cfg: Config, req: Request, after: Db)
    requires Inv(db) && Protected(db.rows) && Answer(db, cfg, req) == Success(after)
    requires req.Remove? || req.Transfer? || req.Reassign? || req.Counted?
    ensures Protected(after.rows)
  {
    forall i | i in after.rows
      ensures i in db.rows && after.rows[i].linkType == db.rows[i].linkType
      ensures after.rows[i].aliasTarget == db.rows[i].aliasTarget
      ensures after.rows[i].requireAuth == db.rows[i].requireAuth && after.rows[i].nameLower == db.rows[i].nameLower
    {}
  }

  /** For every request in every state that is so: it stays so exactly when the request fails its
      guards, or makes no such alias and protects no such link. */
  lemma ProtectedStepExactly(db: Db, cfg: Config, req: Request)
    requires Inv(db) && Protected(db.rows)
    ensures Protected(Step(db, cfg, req).rows) <==> (Accepts(db, cfg, req) ==> KeepsProtected(db, req))
  {
    AcceptedExactly(db, cfg, req);
    var answer := Answer(db, cfg, req);
    if answer.Success? {
      match req
      case New(p, owner, now) => NewProtected(db, cfg, p, owner, now, answer.value);
      case NewAlias(canonical, aliasName, owner, now) =>
        NewAliasProtected(db, cfg, canonical, aliasName, owner, now, answer.value);
      case Patch(name, m) =>
        Found(db, ToLower(name));
        var l := Find(db.rows, ToLower(name)).value;
        EditProtected(db, cfg, l, Masked(l, m), answer.value);
      case Details(name, lt, target, aliasTarget, auth) =>
        Found(db, ToLower(name));
        EditProtected(db, cfg, Find(db.rows, ToLower(name)).value, Form(lt, target, aliasTarget, auth), answer.value);
      case _ => OthersProtected(db, cfg, req, answer.value);
    }
  }

  /** A request that any signed-in user may make about a protected link: an alias from its details page,
      which is public, and lets every visit in. */
  lemma AnAliasLetsIn(db: Db, cfg: Config, engine: R.Engine, canonical: string, aliasName: string, owner: string, now: int)
    requires Inv(db) && !engine.authForAll && NamesProtected(db.rows, ToLower(canonical))
    requires Accepts(db, cfg, NewAlias(canonical, aliasName, owner, now))
    ensures var after := Step(db, cfg, NewAlias(canonical, aliasName, owner, now));
            Slips(after.rows, engine, R.Visit(TrimSpace(aliasName), "", "", "", None, true))
  {
    var req := NewAlias(canonical, aliasName, owner, now);
    AcceptedExactly(db, cfg, req);
    InvStep(db, cfg, req);
    var after := Step(db, cfg, req);
    var j := Find(db.rows, ToLower(canonical)).value.id;
    assert after.rows[db.nextId] == NewRow(db.nextId, TrimSpace(aliasName), "", owner, Alias, ToLower(canonical), false, now);
    assert after.rows[j] == db.rows[j];
    PublicAliasSlips(after.rows, engine, db.nextId, j);
  }
}
