/** The request handlers as they run: over the cache and the counter, one statement at a time.
    Each is proved to do what its specification does on the bare tables. */
module Server {
  import opened Common
  import opened Text
  import opened LinkStore
  import opened AliasGraph
  import opened Validate
  import opened Handlers
  import opened Invariants
  import opened Paging
  import opened UseCounter
  import C = LinkCache
  import R = Redirect
  import X = ImportExport
  import W = Writes
  import XW = ImportWrites

  /** A handler did what its specification answers: the same refusal and no change, or the
      same change. */
  ghost predicate Carried<T>(answer: Result<Db, Status>, before: Db, after: Db, r: Result<T, Status>) {
    match answer
    case Failure(e) => r == Failure(e) && after == before
    case Success(db) => r.Success? && after == db
  }

  lemma CarriedIsStep<T>(before: Db, cfg: Config, req: Request, after: Db, r: Result<T, Status>)
    requires Carried(Answer(before, cfg, req), before, after, r)
    ensures after == Step(before, cfg, req)
  {
  }

  /** What an edit, or a redirect, makes of a link does not depend on its counters. */
  lemma CachedEdit(db: Db, cfg: Config, cached: Link, l: Link, e: Edit)
    requires C.SameButCounters(cached, l)
    ensures EditLink(db, cfg, cached, e) == EditLink(db, cfg, l, e)
  {
  }

  lemma CachedExpand(engine: R.Engine, cached: Link, l: Link, v: R.Visit)
    requires C.SameButCounters(cached, l)
    ensures R.Expand(engine, cached, v) == R.Expand(engine, l, v)
  {
  }

  /** The visit got its answer, and one more count of the link named with it, if any. */
  ghost predicate Replied(outcome: (R.Reply, Option<int>), before: Counts, after: Counts, reply: R.Reply) {
    && reply == outcome.0
    && after == if outcome.1.Some? then Bump(before, outcome.1.value, 1) else before
  }

  class Server {
    const links: C.CachingLinkRepo
    const counter: Counter
    const cfg: Config
    const engine: R.Engine

    constructor (links: C.CachingLinkRepo, counter: Counter, cfg: Config, engine: R.Engine)
      ensures this.links == links && this.counter == counter && this.cfg == cfg && this.engine == engine
    {
      this.links, this.counter, this.cfg, this.engine := links, counter, cfg, engine;
    }

    ghost function Store(): Db reads links.inner { links.inner.State() }

    /** A cached read, counters aside. */
    method Lookup(n: string) returns (r: Option<Link>)
      requires links.Coherent()
      modifies links
      ensures links.Coherent() && C.Agrees(r, Find(links.inner.rows, n))
    {
      r := links.GetByName(n);
    }

    method ResolveAliasTarget(target: string, self: string) returns (r: Result<string, ResolveError>)
      requires links.Coherent()
      modifies links
      ensures links.Coherent()
      ensures r == Resolve(links.inner.rows, target, self)
    {
      if target == self && self != "" { return Failure(SelfAlias); }
      var targetLink := Lookup(target);
      if targetLink.None? { return Failure(NoSuchTarget); }
      var aliasTarget := target;
      if targetLink.value.linkType.Alias? {
        aliasTarget := targetLink.value.aliasTarget;
        if aliasTarget == self && self != "" { return Failure(Circular); }
        var canonical := Lookup(aliasTarget);
        if canonical.None? { return Failure(NoSuchCanonical); }
      }
      r := Success(aliasTarget);
    }

    // ---- creating ------------------------------------------------------------------------------

    /** The name a new alias will point at, while that one may have another. */
    method ResolveForNew(target: string) returns (r: Option<string>)
      requires links.Coherent()
      modifies links
      ensures links.Coherent()
      ensures var to := Resolve(links.inner.rows, target, "");
              r == if to.Success? && |Targeting(links.inner.rows, to.value)| < cfg.maxAliases then Some(to.value) else None
    {
      var resolved := ResolveAliasTarget(target, "");
      if resolved.Failure? { return None; }
      var count := links.CountAliases(resolved.value);
      if count >= cfg.maxAliases { return None; }
      r := Some(resolved.value);
    }

    method CreateLink(p: CreateParams, owner: string, now: int) returns (r: Result<Link, Status>)
      requires links.Coherent()
      modifies links, links.inner
      ensures links.Coherent()
      ensures Carried(DoCreateLink(old(Store()), cfg, p, owner, now), old(Store()), Store(), r)
    {
      if !ValidName(p.name) { return Failure(BadRequest); }
      var aliasTarget := p.aliasTarget;
      if p.lt.Alias? {
        if p.aliasTarget == "" { return Failure(BadRequest); }
        var resolved := ResolveForNew(p.aliasTarget);
        if resolved.None? { return Failure(BadRequest); }
        aliasTarget := resolved.value;
      } else {
        if p.lt.Advanced? && !cfg.advancedAllowed { return Failure(BadRequest); }
        if !ValidTarget(p.target) { return Failure(BadRequest); }
        if p.lt.Advanced? && !cfg.templateOk(p.target) { return Failure(BadRequest); }
      }
      var created := links.Create(p.name, p.target, owner, p.lt, aliasTarget, p.auth, now);
      r := if created.Success? then Success(created.value) else Failure(Conflict);
    }

    method CreateAliasOf(canonicalName: string, aliasName: string, owner: string, now: int) returns (r: Result<Link, Status>)
      requires links.Coherent()
      modifies links, links.inner
      ensures links.Coherent()
      ensures Carried(CreateAlias(old(Store()), cfg, canonicalName, aliasName, owner, now), old(Store()), Store(), r)
    {
      var canonicalLower := ToLower(canonicalName);
      var canonical := Lookup(canonicalLower);
      if canonical.None? { return Failure(NoSuchLink); }
      if canonical.value.linkType.Alias? { return Failure(BadRequest); }
      var name := TrimSpace(aliasName);
      if !ValidName(name) { return Failure(BadRequest); }
      var count := links.CountAliases(canonicalLower);
      if count >= cfg.maxAliases { return Failure(Unprocessable); }
      var created := links.Create(name, "", owner, Alias, canonicalLower, false, now);
      r := if created.Success? then Success(created.value) else Failure(Conflict);
    }

    // ---- editing -------------------------------------------------------------------------------

    /** PATCH: fields absent from the mask keep their stored values, which are not validated. */
    method UpdateLink(name: string, m: Mask) returns (r: Result<Link, Status>)
      requires links.Coherent()
      modifies links, links.inner
      ensures links.Coherent()
      ensures Carried(PatchLink(old(Store()), cfg, name, m), old(Store()), Store(), r)
    {
      var link := Lookup(ToLower(name));
      if link.None? { return Failure(NoSuchLink); }
      var l := link.value;
      var e := Edit(l.linkType, l.aliasTarget, l.target, m.target.Some?, l.requireAuth);
      if m.lt.Some? { e := e.(lt := m.lt.value); }
      if m.auth.Some? { e := e.(auth := m.auth.value); }
      if m.aliasTarget.Some? { e := e.(requested := ToLower(TrimSpace(m.aliasTarget.value))); }
      if m.target.Some? { e := e.(target := TrimSpace(m.target.value)); }
      ghost var row := Find(links.inner.rows, ToLower(name)).value;
      assert e == Masked(row, m);
      CachedEdit(links.inner.State(), cfg, l, row, e);
      r := Save(l, e);
    }

    /** The details form: every field is there, every field is validated. */
    method PostDetails(name: string, lt: LinkType, target: string, aliasTarget: string, auth: bool)
      returns (r: Result<Link, Status>)
      requires links.Coherent()
      modifies links, links.inner
      ensures links.Coherent()
      ensures Carried(Handlers.PostDetails(old(Store()), cfg, name, lt, target, aliasTarget, auth), old(Store()), Store(), r)
    {
      var link := Lookup(ToLower(name));
      if link.None? { return Failure(NoSuchLink); }
      var e := Edit(lt, ToLower(TrimSpace(aliasTarget)), TrimSpace(target), true, auth);
      CachedEdit(links.inner.State(), cfg, link.value, Find(links.inner.rows, ToLower(name)).value, e);
      r := Save(link.value, e);
    }

    /** Both edit handlers from here on; l may come from the cache. */
    method Save(l: Link, e: Edit) returns (r: Result<Link, Status>)
      requires links.Coherent()
      requires l.id in links.inner.rows ==> ToLower(l.name) == links.inner.rows[l.id].nameLower
      modifies links, links.inner
      ensures links.Coherent()
      ensures Carried(EditLink(old(Store()), cfg, l, e), old(Store()), Store(), r)
    {
      if e.lt.Alias? { r := MakeAlias(l, e.requested, e.auth); } else { r := Rewrite(l, e); }
    }

    method MakeAlias(l: Link, requested: string, auth: bool) returns (r: Result<Link, Status>)
      requires links.Coherent()
      modifies links, links.inner
      ensures links.Coherent()
      ensures Carried(ToAlias(old(Store()), cfg, l, requested, auth), old(Store()), Store(), r)
    {
      if requested == "" { return Failure(BadRequest); }
      var resolved := ResolveAliasTarget(requested, l.nameLower);
      if resolved.Failure? { return Failure(BadRequest); }
      r := Convert(l, resolved.value, auth);
    }

    method Convert(l: Link, to: string, auth: bool) returns (r: Result<Link, Status>)
      requires links.Coherent()
      modifies links, links.inner
      ensures links.Coherent()
      ensures Carried(Edited(SetAliasSpec(old(Store()), l.id, l.name, to, auth, cfg.maxAliases)), old(Store()), Store(), r)
    {
      var updated := links.SetAlias(l.id, l.name, to, auth, cfg.maxAliases);
      match updated
      case Success(row) => r := Success(row);
      case Failure(AliasLimitExceeded) => r := Failure(Unprocessable);
      case Failure(_) => r := Failure(Internal);
    }

    /** A target is checked when the request supplied it. */
    method Rewrite(l: Link, e: Edit) returns (r: Result<Link, Status>)
      requires links.Coherent() && !e.lt.Alias?
      requires l.id in links.inner.rows ==> ToLower(l.name) == links.inner.rows[l.id].nameLower
      modifies links, links.inner
      ensures links.Coherent()
      ensures Carried(EditLink(old(Store()), cfg, l, e), old(Store()), Store(), r)
    {
      if e.lt.Advanced? && !cfg.advancedAllowed { return Failure(BadRequest); }
      if e.checked && !ValidTarget(e.target) { return Failure(BadRequest); }
      if e.lt.Advanced? && !cfg.templateOk(e.target) { return Failure(BadRequest); }
      var updated := links.Update(l.id, l.name, e.target, e.lt, e.auth);
      match updated
      case Success(row) => r := Success(row);
      case Failure(AliasLimitExceeded) => r := Failure(Unprocessable);
      case Failure(_) => r := Failure(Internal);
    }

    method DeleteLink(name: string) returns (r: Result<(), Status>)
      requires links.Coherent()
      modifies links, links.inner
      ensures links.Coherent()
      ensures Carried(RemoveLink(old(Store()), name), old(Store()), Store(), r)
    {
      var link := Lookup(ToLower(name));
      if link.None? { return Failure(NoSuchLink); }
      var deleted := links.Delete(link.value.id);
      r := if deleted.Success? then Success(()) else Failure(Internal);
    }

    method TransferOwner(name: string, newOwner: string) returns (r: Result<Link, Status>)
      requires links.Coherent()
      modifies links, links.inner
      ensures links.Coherent()
      ensures Carried(TransferLink(old(Store()), name, newOwner), old(Store()), Store(), r)
    {
      var link := Lookup(ToLower(name));
      if link.None? { return Failure(NoSuchLink); }
      var owner := TrimSpace(newOwner);
      if owner == "" { return Failure(BadRequest); }
      if ToLower(owner) == ToLower(link.value.owner) { return Failure(BadRequest); }
      var updated := links.TransferOwnership(link.value.id, owner);
      r := if updated.Success? then Success(updated.value) else Failure(Internal);
    }

    // ---- requests, whichever they are -----------------------------------------------------------

    method HandleNew(req: Request)
      requires links.Coherent() && req.New?
      modifies links, links.inner
      ensures links.Coherent() && Store() == Step(old(Store()), cfg, req)
    {
      ghost var before := Store();
      var r := CreateLink(req.p, req.owner, req.now);
      CarriedIsStep(before, cfg, req, Store(), r);
    }

    method HandleNewAlias(req: Request)
      requires links.Coherent() && req.NewAlias?
      modifies links, links.inner
      ensures links.Coherent() && Store() == Step(old(Store()), cfg, req)
    {
      ghost var before := Store();
      var r := CreateAliasOf(req.canonical, req.aliasName, req.owner, req.now);
      CarriedIsStep(before, cfg, req, Store(), r);
    }

    method HandlePatch(req: Request)
      requires links.Coherent() && req.Patch?
      modifies links, links.inner
      ensures links.Coherent() && Store() == Step(old(Store()), cfg, req)
    {
      ghost var before := Store();
      var r := UpdateLink(req.name, req.mask);
      CarriedIsStep(before, cfg, req, Store(), r);
    }

    method HandleDetails(req: Request)
      requires links.Coherent() && req.Details?
      modifies links, links.inner
      ensures links.Coherent() && Store() == Step(old(Store()), cfg, req)
    {
      ghost var before := Store();
      var r := PostDetails(req.name, req.lt, req.target, req.aliasTarget, req.auth);
      CarriedIsStep(before, cfg, req, Store(), r);
    }

    method HandleRemove(req: Request)
      requires links.Coherent() && req.Remove?
      modifies links, links.inner
      ensures links.Coherent() && Store() == Step(old(Store()), cfg, req)
    {
      ghost var before := Store();
      var r := DeleteLink(req.name);
      CarriedIsStep(before, cfg, req, Store(), r);
    }

    method HandleTransfer(req: Request)
      requires links.Coherent() && req.Transfer?
      modifies links, links.inner
      ensures links.Coherent() && Store() == Step(old(Store()), cfg, req)
    {
      ghost var before := Store();
      var r := TransferOwner(req.name, req.owner);
      CarriedIsStep(before, cfg, req, Store(), r);
    }

    /** The counter's write, which goes past the cache. */
    method WriteCount(id: int, delta: nat, now: int)
      requires links.Coherent()
      modifies links.inner
      ensures links.Coherent() && Store() == AddUsesSpec(old(Store()), id, delta, now)
    {
      ghost var before := Store();
      links.inner.AddUses(id, delta, now);
      C.AfterWrite(links.capacity, before, links.cache, C.Op.Counted(id, delta, now), links.cache);
    }

    /** The router, and beside it the writers that are no handlers. */
    method Handle(req: Request)
      requires links.Coherent()
      modifies links, links.inner
      ensures links.Coherent() && Store() == Step(old(Store()), cfg, req)
      ensures old(Invariants.Inv(Store())) ==>
                if old(Accepts(Store(), cfg, req)) then W.Wrote(old(Store()), req, Store()) else Store() == old(Store())
    {
      ghost var before := Store();
      Route(req);
      if Invariants.Inv(before) { W.StepExactly(before, cfg, req, Store()); }
    }

    method Route(req: Request)
      requires links.Coherent()
      modifies links, links.inner
      ensures links.Coherent() && Store() == Step(old(Store()), cfg, req)
    {
      match req
      case New(_, _, _) => HandleNew(req);
      case NewAlias(_, _, _, _) => HandleNewAlias(req);
      case Patch(_, _) => HandlePatch(req);
      case Details(_, _, _, _, _) => HandleDetails(req);
      case Remove(_) => HandleRemove(req);
      case Transfer(_, _) => HandleTransfer(req);
      case Reassign(fromOwner, toOwner) => var _ := links.ReassignLinks(fromOwner, toOwner);
      case Counted(id, delta, now) => WriteCount(id, delta, now);
    }

    /** Requests one after another take the tables where the run of their steps does, so what holds
        of runs holds of the server over its cache: the alias limit always, one hop for every alias
        as long as no request creates an alias under a referenced name. */
    method HandleAll(reqs: seq<Request>)
      requires links.Coherent() && Invariants.Inv(Store())
      modifies links, links.inner
      ensures links.Coherent() && Store() == Run(old(Store()), cfg, reqs)
      ensures old(WithinLimit(Store().rows, cfg.maxAliases)) ==> WithinLimit(Store().rows, cfg.maxAliases)
      ensures old(Flat(Store().rows) && Throughout(Store(), cfg, reqs, KeepsFlat(cfg))) ==> Flat(Store().rows)
    {
      ghost var before := Store();
      for i := 0 to |reqs|
        invariant links.Coherent() && Store() == Run(before, cfg, reqs[..i])
      {
        RunSplit(before, cfg, reqs, i);
        Handle(reqs[i]);
      }
      assert reqs[..|reqs|] == reqs;
      if WithinLimit(before.rows, cfg.maxAliases) { LimitRun(before, cfg, reqs); }
      if Flat(before.rows) && Throughout(before, cfg, reqs, KeepsFlat(cfg)) { FlatRun(before, cfg, reqs); }
    }

    // ---- visits --------------------------------------------------------------------------------

    method HandleRedirect(v: R.Visit) returns (reply: R.Reply)
      requires links.Coherent()
      modifies links, counter
      ensures links.Coherent()
      ensures Replied(R.Serve(links.inner.rows, engine, v), old(counter.counts), counter.counts, reply)
    {
      var link := Lookup(ToLower(v.name));
      if link.None? {
        reply := R.NoSuchLink;
      } else {
        reply := ReplyFrom(link.value, Find(links.inner.rows, ToLower(v.name)).value, v);
      }
    }

    method ReplyFrom(found: Link, ghost row: Link, v: R.Visit) returns (reply: R.Reply)
      requires links.Coherent() && C.SameButCounters(found, row) && Find(links.inner.rows, ToLower(v.name)) == Some(row)
      modifies links, counter
      ensures links.Coherent()
      ensures Replied(R.Serve(links.inner.rows, engine, v), old(counter.counts), counter.counts, reply)
    {
      assert R.Serve(links.inner.rows, engine, v) == R.ServeFrom(row, links.inner.rows, engine, v);
      assert R.Refusal(found, engine, v) == R.Refusal(row, engine, v);
      var refused := Refuse(found, v);
      if refused.Some? { return refused.value; }
      reply := DoRedirect(found, row, v);
    }

    /** The link asked for, and no other, decides on the sign-in. */
    method Refuse(link: Link, v: R.Visit) returns (reply: Option<R.Reply>)
      ensures reply == R.Refusal(link, engine, v)
    {
      var needsAuth := link.requireAuth || engine.authForAll;
      if needsAuth {
        if !v.canonicalHost { return Some(R.ToCanonicalHost); }
        if v.email.None? { return Some(R.LoginRequired); }
      }
      reply := None;
    }

    /** One hop at most; the alias is counted before its target is expanded, any other link after. */
    method DoRedirect(found: Link, ghost row: Link, v: R.Visit) returns (reply: R.Reply)
      requires links.Coherent() && C.SameButCounters(found, row)
      modifies links, counter
      ensures links.Coherent()
      ensures Replied(R.Follow(row, links.inner.rows, engine, v), old(counter.counts), counter.counts, reply)
    {
      var link := found;
      if found.linkType.Alias? {
        var canonical := Lookup(found.aliasTarget);
        if canonical.None? { return R.DanglingAlias; }
        counter.Increment(found.id);
        link := canonical.value;
        CachedExpand(engine, link, Find(links.inner.rows, found.aliasTarget).value, v);
      } else {
        CachedExpand(engine, link, row, v);
      }
      reply := R.Expand(engine, link, v);
      if reply.Redirected? && !found.linkType.Alias? { counter.Increment(link.id); }
    }

    // ---- import --------------------------------------------------------------------------------

    method DoImport(els: seq<X.ExportLink>, importer: string, now: int) returns (result: X.Summary)
      requires links.Coherent()
      modifies links, links.inner
      ensures links.Coherent()
      ensures (Store(), result) == X.ImportAll(old(Store()), cfg.maxAliases, importer, els, now)
    {
      result := X.Summary(0, 0, 0, []);
      ghost var before, one := Store(), X.Body(cfg.maxAliases, importer, now);
      for i := 0 to |els|
        invariant links.Coherent()
        invariant (Store(), result) == X.Loop(one, before, els[..i])
      {
        var verdict := ImportLink(els[i], importer, now);
        X.LoopOneMore(one, before, els, i);
        result := X.Noted(result, verdict, TrimSpace(els[i].name));
      }
      assert els[..|els|] == els;
    }

    /** One turn of the loop: validate, then update what exists or create what does not. */
    method ImportLink(el: X.ExportLink, importer: string, now: int) returns (verdict: X.Verdict)
      requires links.Coherent()
      modifies links, links.inner
      ensures links.Coherent()
      ensures (Store(), verdict) == X.ImportOne(old(Store()), cfg.maxAliases, importer, el, now)
      ensures old(Invariants.Inv(Store())) ==> XW.Turn(old(Store()), cfg.maxAliases, importer, el, now, Store(), verdict)
    {
      ghost var before := Store();
      verdict := TakeTurn(el, importer, now);
      if Invariants.Inv(before) { XW.TurnExactly(before, cfg.maxAliases, importer, el, now, Store(), verdict); }
    }

    method TakeTurn(el: X.ExportLink, importer: string, now: int) returns (verdict: X.Verdict)
      requires links.Coherent()
      modifies links, links.inner
      ensures links.Coherent()
      ensures (Store(), verdict) == X.ImportOne(old(Store()), cfg.maxAliases, importer, el, now)
    {
      var p := ValidateImport(el);
      if p.None? { return X.Skipped; }
      var owner := el.owner;
      if owner == "" { owner := importer; }
      verdict := UpsertLink(p.value, owner, el.shares, now);
    }

    method ValidateImport(el: X.ExportLink) returns (p: Option<X.Parsed>)
      ensures p == X.Parse(el)
    {
      var name, target, aliasTarget := TrimSpace(el.name), TrimSpace(el.target), ToLower(TrimSpace(el.aliasTarget));
      if !ValidName(name) { return None; }
      var lt := X.TypeFromName(el.linkType);
      if lt.None? { return None; }
      if lt.value.Alias? {
        if aliasTarget == "" { return None; }
      } else {
        if !ValidTarget(target) { return None; }
      }
      p := Some(X.Parsed(name, target, lt.value, aliasTarget, el.auth));
    }

    method UpsertLink(p: X.Parsed, owner: string, shares: seq<string>, now: int) returns (verdict: X.Verdict)
      requires links.Coherent()
      modifies links, links.inner
      ensures links.Coherent()
      ensures (Store(), verdict) == X.Upsert(old(Store()), cfg.maxAliases, owner, p, shares, now)
    {
      var existing := Lookup(ToLower(p.name));
      if existing.Some? {
        var id := existing.value.id;
        if p.lt.Alias? {
          var r := links.SetAlias(id, p.name, p.to, p.auth, cfg.maxAliases);
          if r.Failure? { return X.Skipped; }
        } else {
          var r := links.Update(id, p.name, p.target, p.lt, p.auth);
          if r.Failure? { return X.Skipped; }
        }
        return X.Updated;
      }
      var created := links.Create(p.name, p.target, owner, p.lt, p.to, p.auth, now);
      if created.Failure? { return X.Skipped; }
      RestoreShares(created.value.id, shares);
      return X.Created;
    }

    method RestoreShares(id: int, emails: seq<string>)
      requires links.Coherent() && id in links.inner.rows
      modifies links, links.inner
      ensures links.Coherent() && Store() == X.ShareAll(old(Store()), id, emails)
    {
      ghost var before := Store();
      for i := 0 to |emails|
        invariant links.Coherent() && Store() == X.ShareAll(before, id, emails[..i])
      {
        X.ShareOneMore(before, id, emails, i);
        links.AddShare(id, emails[i]);
      }
      assert emails[..|emails|] == emails;
    }

    // ---- export --------------------------------------------------------------------------------

    method Exported(l: Link) returns (el: X.ExportLink)
      ensures X.Exports(el, Store(), l)
    {
      var shares := links.GetShares(l.id);
      el := X.ExportLink(l.name, l.target, l.owner, X.TypeName(l.linkType), l.aliasTarget, l.requireAuth, shares);
    }

    /** The paging loop, 500 links a page. */
    method Export() returns (out: seq<X.Token>)
      requires links.Coherent()
      ensures X.IsDump(out, Store())
    {
      var offset, first := 0, true;
      ghost var db := Store();
      ghost var s := X.TheOrdering(db);
      ghost var els: seq<X.ExportLink> := [];
      out := [];
      while true
        invariant offset == |els| && (first <==> els == [])
        invariant X.ExportsFirst(els, db, s) && out == X.Separated(els)
        decreases |s| - offset
      {
        var page, total := links.List(X.PAGE_SIZE, offset, X.BY_NAME, false);
        X.PageContinues(db, s, page, X.PAGE_SIZE, offset);
        if |page| == 0 { break; }
        out, first, els := WritePage(page, out, first, els, db, s);
        offset := offset + |page|;
        if |page| < X.PAGE_SIZE { break; }
      }
      assert X.IsExport(els, db, s);
    }

    /** The inner loop: one page of links onto what is already written. */
    method WritePage(page: seq<Link>, written: seq<X.Token>, begin: bool, ghost before: seq<X.ExportLink>,
                     ghost db: Db, ghost s: seq<Link>)
      returns (out: seq<X.Token>, first: bool, ghost els: seq<X.ExportLink>)
      requires db == Store()
      requires X.ExportsFirst(before, db, s) && X.Continues(page, s, |before|)
      requires written == X.Separated(before) && (begin <==> before == [])
      ensures |els| == |before| + |page| && X.ExportsFirst(els, db, s)
      ensures out == X.Separated(els) && (first <==> els == [])
    {
      out, first, els := written, begin, before;
      for i := 0 to |page|
        invariant |els| == |before| + i && (first <==> els == [])
        invariant X.ExportsFirst(els, db, s) && out == X.Separated(els)
      {
        var el := Exported(page[i]);
        if !first { out := out + [X.Comma]; }
        first := false;
        out := out + [X.Item(el)];
        X.SeparatedMore(els, el);
        X.ExportsMore(els, el, db, s);
        els := els + [el];
      }
    }
  }
}
