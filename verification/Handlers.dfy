/** The request handlers that change links, as steps on the tables, and runs of them. */
module Handlers {
  import opened Common
  import opened Text
  import opened LinkStore
  import opened AliasGraph
  import opened Validate

  /** templateOk stands for CheckTemplateTargetDomain under the configured domain list. */
  datatype Config = Config(maxAliases: int, advancedAllowed: bool, templateOk: string -> bool)

  datatype Status = BadRequest | NoSuchLink | Conflict | Unprocessable | Internal

  datatype CreateParams =
    CreateParams(name: string, target: string, lt: LinkType, aliasTarget: string, auth: bool)

  datatype Mask =
    Mask(lt: Option<LinkType>, target: Option<string>, aliasTarget: Option<string>, auth: Option<bool>)

  datatype Request =
    | New(p: CreateParams, owner: string, now: int)
    | NewAlias(canonical: string, aliasName: string, owner: string, now: int)
    | Patch(name: string, mask: Mask)
    | Details(name: string, lt: LinkType, target: string, aliasTarget: string, auth: bool)
    | Remove(name: string)
    | Transfer(name: string, owner: string)
    | Reassign(fromOwner: string, toOwner: string)
    | Counted(id: int, delta: nat, now: int)

  // ---- the handlers ----------------------------------------------------------------------

  function Inserted(r: Result<Db, DbError>): Result<Db, Status> {
    match r case Success(db) => Success(db) case Failure(_) => Failure(Conflict)
  }

  function Edited(r: Result<Db, DbError>): Result<Db, Status> {
    match r
    case Success(db) => Success(db)
    case Failure(AliasLimitExceeded) => Failure(Unprocessable)
    case Failure(_) => Failure(Internal)
  }

  ghost function DoCreateLink(db: Db, cfg: Config, p: CreateParams, owner: string, now: int): Result<Db, Status> {
    if !ValidName(p.name) then Failure(BadRequest)
    else if p.lt.Alias? then
      if p.aliasTarget == "" then Failure(BadRequest)
      else
        match Resolve(db.rows, p.aliasTarget, "")
        case Failure(_) => Failure(BadRequest)
        case Success(to) =>
          if |Targeting(db.rows, to)| >= cfg.maxAliases then Failure(BadRequest)
          else Inserted(CreateSpec(db, p.name, p.target, owner, Alias, to, p.auth, now))
    else if (p.lt.Advanced? && !cfg.advancedAllowed) || !ValidTarget(p.target) then Failure(BadRequest)
    else if p.lt.Advanced? && !cfg.templateOk(p.target) then Failure(BadRequest)
    else Inserted(CreateSpec(db, p.name, p.target, owner, p.lt, p.aliasTarget, p.auth, now))
  }

  ghost function CreateAlias(db: Db, cfg: Config, canonical: string, aliasName: string, owner: string,
                             now: int): Result<Db, Status>
  {
    var c, n := ToLower(canonical), TrimSpace(aliasName);
    match Find(db.rows, c)
    case None => Failure(NoSuchLink)
    case Some(l) =>
      if l.linkType.Alias? || !ValidName(n) then Failure(BadRequest)
      else if |Targeting(db.rows, c)| >= cfg.maxAliases then Failure(Unprocessable)
      else Inserted(CreateSpec(db, n, "", owner, Alias, c, false, now))
  }

  /** Both edit handlers, once the alias branch is chosen. */
  ghost function ToAlias(db: Db, cfg: Config, l: Link, requested: string, auth: bool): Result<Db, Status> {
    if requested == "" then Failure(BadRequest)
    else
      match Resolve(db.rows, requested, l.nameLower)
      case Failure(_) => Failure(BadRequest)
      case Success(to) => Edited(SetAliasSpec(db, l.id, l.name, to, auth, cfg.maxAliases))
  }

  /** The values a field mask leaves: those it names, trimmed, else the stored ones, unchecked. */
  datatype Edit = Edit(lt: LinkType, requested: string, target: string, checked: bool, auth: bool)

  function Masked(l: Link, m: Mask): Edit {
    Edit(Or(m.lt, l.linkType),
         if m.aliasTarget.Some? then ToLower(TrimSpace(m.aliasTarget.value)) else l.aliasTarget,
         if m.target.Some? then TrimSpace(m.target.value) else l.target,
         m.target.Some?,
         Or(m.auth, l.requireAuth))
  }

  /** The values of a details form, all of them checked. */
  function Form(lt: LinkType, target: string, aliasTarget: string, auth: bool): Edit {
    Edit(lt, ToLower(TrimSpace(aliasTarget)), TrimSpace(target), true, auth)
  }

  /** Both edit handlers, once the values are known. */
  ghost function EditLink(db: Db, cfg: Config, l: Link, e: Edit): Result<Db, Status> {
    if e.lt.Alias? then ToAlias(db, cfg, l, e.requested, e.auth)
    else if e.lt.Advanced? && !cfg.advancedAllowed then Failure(BadRequest)
    else if e.checked && !ValidTarget(e.target) then Failure(BadRequest)
    else if e.lt.Advanced? && !cfg.templateOk(e.target) then Failure(BadRequest)
    else Edited(UpdateSpec(db, l.id, l.name, e.target, e.lt, e.auth))
  }

  ghost function PatchLink(db: Db, cfg: Config, name: string, m: Mask): Result<Db, Status> {
    match Find(db.rows, ToLower(name))
    case None => Failure(NoSuchLink)
    case Some(l) => EditLink(db, cfg, l, Masked(l, m))
  }

  ghost function PostDetails(db: Db, cfg: Config, name: string, lt: LinkType, target: string, aliasTarget: string,
                             auth: bool): Result<Db, Status>
  {
    match Find(db.rows, ToLower(name))
    case None => Failure(NoSuchLink)
    case Some(l) => EditLink(db, cfg, l, Form(lt, target, aliasTarget, auth))
  }

  ghost function RemoveLink(db: Db, name: string): Result<Db, Status> {
    match Find(db.rows, ToLower(name))
    case None => Failure(NoSuchLink)
    case Some(l) => Edited(DeleteSpec(db, l.id))
  }

  ghost function TransferLink(db: Db, name: string, owner: string): Result<Db, Status> {
    match Find(db.rows, ToLower(name))
    case None => Failure(NoSuchLink)
    case Some(l) =>
      var to := TrimSpace(owner);
      if to == "" || ToLower(to) == ToLower(l.owner) then Failure(BadRequest)
      else Edited(TransferSpec(db, l.id, to))
  }

  ghost function Answer(db: Db, cfg: Config, req: Request): Result<Db, Status> {
    match req
    case New(p, owner, now) => DoCreateLink(db, cfg, p, owner, now)
    case NewAlias(canonical, aliasName, owner, now) => CreateAlias(db, cfg, canonical, aliasName, owner, now)
    case Patch(name, m) => PatchLink(db, cfg, name, m)
    case Details(name, lt, target, aliasTarget, auth) => PostDetails(db, cfg, name, lt, target, aliasTarget, auth)
    case Remove(name) => RemoveLink(db, name)
    case Transfer(name, owner) => TransferLink(db, name, owner)
    case Reassign(fromOwner, toOwner) => Success(ReassignSpec(db, fromOwner, toOwner))
    case Counted(id, delta, now) => Success(AddUsesSpec(db, id, delta, now))
  }

  // ---- when a request is carried out ----------------------------------------------------------

  predicate TargetAccepted(cfg: Config, lt: LinkType, target: string, checked: bool) {
    && (lt.Advanced? ==> cfg.advancedAllowed && cfg.templateOk(target))
    && (checked ==> ValidTarget(target))
  }

  ghost predicate AliasAccepted(db: Db, cfg: Config, requested: string, self: string, counted: nat) {
    && requested != "" && Resolve(db.rows, requested, self).Success?
    && |Targeting(db.rows, Resolve(db.rows, requested, self).value)| + counted < cfg.maxAliases
  }

  /** For link l to become one of type lt. */
  ghost predicate EditAccepted(db: Db, cfg: Config, l: Link, lt: LinkType, requested: string, target: string, checked: bool) {
    if lt.Alias? then AliasAccepted(db, cfg, requested, l.nameLower, |Targeting(db.rows, l.nameLower)|)
    else TargetAccepted(cfg, lt, target, checked)
  }

  /** The guards that a request has to pass, all of them on the state it meets. */
  ghost predicate Accepts(db: Db, cfg: Config, req: Request) {
    match req
    case New(p, _, _) =>
      && ValidName(p.name) && !Taken(db.rows, ToLower(p.name))
      && if p.lt.Alias? then AliasAccepted(db, cfg, p.aliasTarget, "", 0) else TargetAccepted(cfg, p.lt, p.target, true)
    case NewAlias(canonical, aliasName, _, _) =>
      var l, n := Find(db.rows, ToLower(canonical)), TrimSpace(aliasName);
      && l.Some? && !l.value.linkType.Alias? && ValidName(n) && !Taken(db.rows, ToLower(n))
      && |Targeting(db.rows, ToLower(canonical))| < cfg.maxAliases
    case Patch(name, m) =>
      var l := Find(db.rows, ToLower(name));
      l.Some? && EditAccepted(db, cfg, l.value,
                              if m.lt.Some? then m.lt.value else l.value.linkType,
                              if m.aliasTarget.Some? then ToLower(TrimSpace(m.aliasTarget.value)) else l.value.aliasTarget,
                              if m.target.Some? then TrimSpace(m.target.value) else l.value.target,
                              m.target.Some?)
    case Details(name, lt, target, aliasTarget, auth) =>
      var l := Find(db.rows, ToLower(name));
      l.Some? && EditAccepted(db, cfg, l.value, lt, ToLower(TrimSpace(aliasTarget)), TrimSpace(target), true)
    case Remove(name) => Find(db.rows, ToLower(name)).Some?
    case Transfer(name, owner) =>
      var l := Find(db.rows, ToLower(name));
      l.Some? && TrimSpace(owner) != "" && ToLower(TrimSpace(owner)) != ToLower(l.value.owner)
    case _ => true
  }

  /** A refused request changes nothing. */
  ghost function Step(db: Db, cfg: Config, req: Request): Db {
    match Answer(db, cfg, req) case Success(after) => after case Failure(_) => db
  }

  ghost function Run(db: Db, cfg: Config, reqs: seq<Request>): Db
    decreases |reqs|
  {
    if reqs == [] then db else Run(Step(db, cfg, reqs[0]), cfg, reqs[1..])
  }
}
