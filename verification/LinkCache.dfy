/** The LRU in front of the links table. The library cache is a bounded map that may lose any
    entry at any moment (eviction or expiry); time itself is in module Staleness. */
module LinkCache {
  import opened Common
  import opened Text
  import opened LinkStore
  import opened LinkRepo
  import opened Paging

  type Cache = map<string, Link>

  /** use_count and last_used_at are written behind the cache's back. */
  ghost predicate SameButCounters(a: Link, b: Link) {
    a == b.(useCount := a.useCount, lastUsedAt := a.lastUsedAt)
  }

  ghost predicate Agrees(answer: Option<Link>, row: Option<Link>) {
    && (answer.Some? <==> row.Some?)
    && (answer.Some? ==> SameButCounters(answer.value, row.value))
  }

  ghost predicate CoherentWith(cache: Cache, rows: Rows) {
    forall n :: n in cache ==> Agrees(Some(cache[n]), Find(rows, n))
  }

  ghost predicate Within(a: Cache, b: Cache) { forall n :: n in a ==> n in b && a[n] == b[n] }

  // ---- the operations, and what each may leave in the cache ------------------------------

  datatype Op =
    | Get(n: string)
    | Create(name: string, target: string, owner: string, lt: LinkType, aliasTarget: string, auth: bool, now: int)
    | Update(id: int, name: string, target: string, lt: LinkType, auth: bool)
    | SetAlias(id: int, name: string, aliasTarget: string, auth: bool, maxAliases: int)
    | Delete(id: int)
    | Transfer(id: int, owner: string)
    | Reassign(fromOwner: string, toOwner: string)
    | Share(id: int, email: string)
    | Counted(id: int, delta: nat, now: int)

  /** What the bare repository does. */
  function Effect(db: Db, op: Op): Result<Db, DbError> {
    match op
    case Get(_) => Success(db)
    case Create(name, target, owner, lt, aliasTarget, auth, now) =>
      CreateSpec(db, name, target, owner, lt, aliasTarget, auth, now)
    case Update(id, name, target, lt, auth) => UpdateSpec(db, id, name, target, lt, auth)
    case SetAlias(id, name, aliasTarget, auth, maxAliases) =>
      SetAliasSpec(db, id, name, aliasTarget, auth, maxAliases)
    case Delete(id) => DeleteSpec(db, id)
    case Transfer(id, owner) => TransferSpec(db, id, owner)
    case Reassign(fromOwner, toOwner) => Success(ReassignSpec(db, fromOwner, toOwner))
    case Share(id, email) => if id in db.rows then Success(ShareSpec(db, id, email)) else Failure(NotFound)
    case Counted(id, delta, now) => Success(AddUsesSpec(db, id, delta, now))
  }

  function Next(db: Db, op: Op): Db {
    match Effect(db, op) case Success(after) => after case Failure(_) => db
  }

  /** The most a write can leave behind; evictions may take away any of it. */
  function Invalidated(db: Db, cache: Cache, op: Op): Cache {
    if Effect(db, op).Failure? then cache
    else
      match op
      case Create(name, target, owner, lt, aliasTarget, auth, now) =>
        cache[ToLower(name) := NewRow(db.nextId, name, target, owner, lt, aliasTarget, auth, now)]
      case Update(_, name, _, _, _) => cache - {ToLower(name)}
      case Transfer(id, _) => if id in db.rows then cache - {db.rows[id].nameLower} else cache
      case SetAlias(_, _, _, _, _) => map[]
      case Delete(_) => map[]
      case Reassign(_, _) => map[]
      case _ => cache
  }

  /** One operation through the cache, with its answer when it is a read. */
  ghost predicate CacheStep(capacity: nat, db: Db, cache: Cache, op: Op, after: Cache, answer: Option<Link>) {
    && |after| <= capacity
    && if !op.Get? then Within(after, Invalidated(db, cache, op))
       else
         || (op.n in cache && answer == Some(cache[op.n]) && Within(after, cache))
         || (answer == Find(db.rows, op.n)
             && Within(after, if answer.Some? then cache[op.n := answer.value] else cache))
  }

  /** Update keeps name_lower: every caller passes the stored name or a case variant of it. */
  ghost predicate KeepsName(db: Db, op: Op) {
    op.Update? && op.id in db.rows ==> ToLower(op.name) == db.rows[op.id].nameLower
  }

  // ---- refinement --------------------------------------------------------------------------

  lemma CreatedAgrees(db: Db, op: Op)
    requires Valid(db) && op.Create? && Effect(db, op).Success?
    ensures var after := Next(db, op).rows;
            db.nextId in after && Find(after, ToLower(op.name)) == Some(after[db.nextId])
  {
    var rows, after := db.rows, Next(db, op).rows;
    assert after[db.nextId].nameLower == ToLower(op.name);
    assert forall i :: i in rows ==> rows[i].nameLower != ToLower(op.name);
  }

  /** A row whose name stays in the cache is still there, changed in its counters alone. */
  lemma KeptRow(db: Db, cache: Cache, op: Op, i: int)
    requires Valid(db) && KeepsName(db, op) && Effect(db, op).Success? && i in db.rows
    requires db.rows[i].nameLower in Invalidated(db, cache, op)
    ensures !op.SetAlias? && (op.Update? ==> op.id != i)
    ensures i in Next(db, op).rows && SameButCounters(db.rows[i], Next(db, op).rows[i])
  {
  }

  /** A row's answer after an operation, when the cache may still hold its name. */
  lemma StillAgrees(db: Db, cache: Cache, op: Op, n: string)
    requires Valid(db) && CoherentWith(cache, db.rows) && KeepsName(db, op)
    requires n in Invalidated(db, cache, op)
    ensures Agrees(Some(Invalidated(db, cache, op)[n]), Find(Next(db, op).rows, n))
  {
    if Effect(db, op).Failure? {
    } else if op.Create? && n == ToLower(op.name) {
      CreatedAgrees(db, op);
    } else {
      assert n in cache && Invalidated(db, cache, op)[n] == cache[n];
      var i := Find(db.rows, n).value.id;
      KeptRow(db, cache, op, i);
      StillFound(db, op, i);
    }
  }

  lemma StillFound(db: Db, op: Op, i: int)
    requires Valid(db) && i in db.rows && i in Next(db, op).rows
    requires !op.SetAlias? && Effect(db, op).Success? && (op.Update? ==> op.id != i)
    requires Next(db, op).rows[i].nameLower == db.rows[i].nameLower
    ensures Find(Next(db, op).rows, db.rows[i].nameLower) == Some(Next(db, op).rows[i])
  {
    var rows, after := db.rows, Next(db, op).rows;
    forall j | j in after && after[j].nameLower == rows[i].nameLower ensures j == i {
      if op.Update? && j == op.id { TakenByOther(rows, j, ToLower(op.name)); }
    }
  }

  /** One step keeps the cache coherent and answers as the bare repository would. */
  lemma CacheStepRefines(capacity: nat, db: Db, cache: Cache, op: Op, after: Cache, answer: Option<Link>)
    requires Valid(db) && CoherentWith(cache, db.rows) && KeepsName(db, op)
    requires CacheStep(capacity, db, cache, op, after, answer)
    ensures CoherentWith(after, Next(db, op).rows)
    ensures op.Get? ==> Agrees(answer, Find(db.rows, op.n))
  {
    if !op.Get? {
      forall n | n in after ensures Agrees(Some(after[n]), Find(Next(db, op).rows, n)) {
        StillAgrees(db, cache, op, n);
      }
    }
  }

  /** Update and TransferOwnership each take one name out of the cache. */
  lemma OneNameGoes(db: Db, cache: Cache, op: Op)
    requires (op.Update? || op.Transfer?) && Effect(db, op).Success?
    ensures op.id in db.rows && op.id in Next(db, op).rows
    ensures Invalidated(db, cache, op) == cache - {Next(db, op).rows[op.id].nameLower}
  {
  }

  /** What the methods below have to show about a write. */
  lemma AfterWrite(capacity: nat, db: Db, cache: Cache, op: Op, after: Cache)
    requires Valid(db) && CoherentWith(cache, db.rows) && |after| <= capacity
    requires !op.Get? && Within(after, Invalidated(db, cache, op))
    ensures CacheStep(capacity, db, cache, op, after, None)
    ensures KeepsName(db, op) ==> CoherentWith(after, Next(db, op).rows)
  {
    if KeepsName(db, op) { CacheStepRefines(capacity, db, cache, op, after, None); }
  }

  /** The next state of a valid database is valid. */
  lemma NextValid(db: Db, op: Op)
    requires Valid(db)
    ensures Valid(Next(db, op))
  {
    if Effect(db, op).Success? {
      match op
      case Create(name, target, owner, lt, aliasTarget, auth, now) =>
        CreateValid(db, name, target, owner, lt, aliasTarget, auth, now, Next(db, op));
      case SetAlias(id, name, aliasTarget, auth, maxAliases) =>
        SetAliasValid(db, id, name, aliasTarget, auth, maxAliases, Next(db, op));
      case Update(id, name, target, lt, auth) => UpdateValid(db, id, name, target, lt, auth, Next(db, op));
      case Delete(id) => DeleteValid(db, id, Next(db, op));
      case Transfer(id, owner) => TransferValid(db, id, owner, Next(db, op));
      case Reassign(fromOwner, toOwner) => ReassignValid(db, fromOwner, toOwner);
      case Counted(id, delta, now) => AddUsesValid(db, id, delta, now);
      case Get(_) =>
      case Share(_, _) =>
    }
  }

  ghost function DbAt(db: Db, ops: seq<Op>, k: nat): Db
    requires k <= |ops|
  {
    if k == 0 then db else Next(DbAt(db, ops, k - 1), ops[k - 1])
  }

  /** A history: operation j, in the state it meets, takes cache j to cache j + 1. */
  ghost predicate StepAt(capacity: nat, db: Db, ops: seq<Op>, caches: seq<Cache>, answers: seq<Option<Link>>, j: nat)
    requires j < |ops| == |answers| && |caches| == |ops| + 1
  {
    var now := DbAt(db, ops, j);
    KeepsName(now, ops[j]) && CacheStep(capacity, now, caches[j], ops[j], caches[j + 1], answers[j])
  }

  ghost predicate AnswersAsBare(db: Db, ops: seq<Op>, answers: seq<Option<Link>>, j: nat)
    requires j < |ops| == |answers|
  {
    ops[j].Get? ==> Agrees(answers[j], Find(DbAt(db, ops, j).rows, ops[j].n))
  }

  ghost predicate CoherentAt(db: Db, ops: seq<Op>, caches: seq<Cache>, k: nat)
    requires k <= |ops| && k < |caches|
  {
    Valid(DbAt(db, ops, k)) && CoherentWith(caches[k], DbAt(db, ops, k).rows)
  }

  /** Any sequence of operations, with any evictions along it: each read through the cache
      answers as the bare repository would at that point, counters aside. */
  lemma {:induction false} CacheRefines(capacity: nat, db: Db, ops: seq<Op>, caches: seq<Cache>,
                                        answers: seq<Option<Link>>, k: nat)
    requires Valid(db) && |caches| == |ops| + 1 && |answers| == |ops| && caches[0] == map[] && k <= |ops|
    requires forall j :: 0 <= j < |ops| ==> StepAt(capacity, db, ops, caches, answers, j)
    ensures CoherentAt(db, ops, caches, k)
    ensures forall j :: 0 <= j < k ==> AnswersAsBare(db, ops, answers, j)
  {
    if k > 0 {
      var last: nat := k - 1;
      CacheRefines(capacity, db, ops, caches, answers, last);
      assert StepAt(capacity, db, ops, caches, answers, last);
      OneMore(capacity, db, ops, caches, answers, last);
      forall j | 0 <= j < k ensures AnswersAsBare(db, ops, answers, j) {
        if j == last { assert AnswersAsBare(db, ops, answers, last); }
      }
    }
  }

  lemma OneMore(capacity: nat, db: Db, ops: seq<Op>, caches: seq<Cache>, answers: seq<Option<Link>>, j: nat)
    requires j < |ops| == |answers| && |caches| == |ops| + 1
    requires CoherentAt(db, ops, caches, j) && StepAt(capacity, db, ops, caches, answers, j)
    ensures CoherentAt(db, ops, caches, j + 1) && AnswersAsBare(db, ops, answers, j)
  {
    var now, op := DbAt(db, ops, j), ops[j];
    assert DbAt(db, ops, j + 1) == Next(now, op);
    NextValid(now, op);
    CacheStepRefines(capacity, now, caches[j], op, caches[j + 1], answers[j]);
  }

  /** The condition on Update is needed: one that renames a link leaves some coherent cache
      incoherent, because only the new name is removed. */
  lemma UpdateCoherentExactly(db: Db, op: Op)
    requires Valid(db) && op.Update? && Effect(db, op).Success?
    ensures (forall cache: Cache :: CoherentWith(cache, db.rows) ==>
               CoherentWith(Invalidated(db, cache, op), Next(db, op).rows))
       <==> ToLower(op.name) == db.rows[op.id].nameLower
  {
    var rows, own := db.rows, db.rows[op.id].nameLower;
    if ToLower(op.name) == own {
      forall cache: Cache | CoherentWith(cache, rows)
        ensures CoherentWith(Invalidated(db, cache, op), Next(db, op).rows)
      {
        forall n | n in Invalidated(db, cache, op) { StillAgrees(db, cache, op, n); }
      }
    } else {
      var cache: Cache := map[own := rows[op.id]];
      FindRow(rows, op.id);
      assert own in Invalidated(db, cache, op);
      assert !Taken(Next(db, op).rows, own);
    }
  }

  // ---- the class ---------------------------------------------------------------------------

  class CachingLinkRepo {
    const inner: SQLLinkRepo
    const capacity: nat
    var cache: Cache

    ghost predicate Coherent() reads this, inner {
      Valid(inner.State()) && CoherentWith(cache, inner.rows) && |cache| <= capacity
    }

    constructor (inner: SQLLinkRepo, size: nat)
      requires Valid(inner.State())
      ensures Coherent() && this.inner == inner && capacity == size && cache == map[]
    {
      this.inner, this.capacity, this.cache := inner, size, map[];
    }

    /** The library's Add: one entry leaves when the cache is full, whichever its order picks. */
    method Add(key: string, link: Link)
      requires |cache| <= capacity
      modifies this
      ensures |cache| <= capacity && Within(cache, old(cache)[key := link])
    {
      cache := cache[key := link];
      if |cache| > capacity {
        var victim :| victim in cache;
        cache := cache - {victim};
      }
    }

    method GetByName(n: string) returns (r: Option<Link>)
      requires Coherent()
      modifies this
      ensures CacheStep(capacity, inner.State(), old(cache), Get(n), cache, r)
      ensures Coherent() && Agrees(r, Find(inner.rows, n))
    {
      if n in cache {
        if * { return Some(cache[n]); }
        cache := cache - {n};  // expired
      }
      r := inner.GetByName(n);
      if r.Some? { Add(n, r.value); }
      CacheStepRefines(capacity, inner.State(), old(cache), Get(n), cache, r);
    }

    method Create(name: string, target: string, owner: string, lt: LinkType, aliasTarget: string, auth: bool, now: int)
      returns (r: Result<Link, DbError>)
      requires Coherent()
      modifies this, inner
      ensures match CreateSpec(old(inner.State()), name, target, owner, lt, aliasTarget, auth, now)
              case Failure(e) => r == Failure(e) && inner.State() == old(inner.State())
              case Success(db) =>
                inner.State() == db && old(inner.nextId) in db.rows && r == Success(db.rows[old(inner.nextId)])
      ensures CacheStep(capacity, old(inner.State()), old(cache),
                        Op.Create(name, target, owner, lt, aliasTarget, auth, now), cache, None)
      ensures Coherent()
    {
      r := inner.Create(name, target, owner, lt, aliasTarget, auth, now);
      if r.Success? { Add(r.value.nameLower, r.value); }
      CacheStepRefines(capacity, old(inner.State()), old(cache),
                       Op.Create(name, target, owner, lt, aliasTarget, auth, now), cache, None);
    }

    method Update(id: int, name: string, target: string, lt: LinkType, auth: bool) returns (r: Result<Link, DbError>)
      requires Coherent()
      modifies this, inner
      ensures match UpdateSpec(old(inner.State()), id, name, target, lt, auth)
              case Failure(e) => r == Failure(e) && inner.State() == old(inner.State())
              case Success(db) => inner.State() == db && id in db.rows && r == Success(db.rows[id])
      ensures CacheStep(capacity, old(inner.State()), old(cache), Op.Update(id, name, target, lt, auth), cache, None)
      ensures KeepsName(old(inner.State()), Op.Update(id, name, target, lt, auth)) ==> Coherent()
    {
      ghost var op, before := Op.Update(id, name, target, lt, auth), inner.State();
      r := inner.Update(id, name, target, lt, auth);
      assert inner.State() == Next(before, op);
      if r.Success? {
        OneNameGoes(before, cache, op);
        cache := cache - {r.value.nameLower};
      }
      AfterWrite(capacity, before, old(cache), op, cache);
    }

    method SetAlias(id: int, name: string, aliasTarget: string, auth: bool, maxAliases: int)
      returns (r: Result<Link, DbError>)
      requires Coherent()
      modifies this, inner
      ensures match SetAliasSpec(old(inner.State()), id, name, aliasTarget, auth, maxAliases)
              case Failure(e) => r == Failure(e) && inner.State() == old(inner.State())
              case Success(db) => inner.State() == db && id in db.rows && r == Success(db.rows[id])
      ensures CacheStep(capacity, old(inner.State()), old(cache),
                        Op.SetAlias(id, name, aliasTarget, auth, maxAliases), cache, None)
      ensures Coherent()
    {
      r := inner.SetAlias(id, name, aliasTarget, auth, maxAliases);
      if r.Success? { cache := map[]; }
    }

    method Delete(id: int) returns (r: Result<(), DbError>)
      requires Coherent()
      modifies this, inner
      ensures match DeleteSpec(old(inner.State()), id)
              case Failure(e) => r == Failure(e) && inner.State() == old(inner.State())
              case Success(db) => r.Success? && inner.State() == db
      ensures CacheStep(capacity, old(inner.State()), old(cache), Op.Delete(id), cache, None)
      ensures Coherent()
    {
      r := inner.Delete(id);
      if r.Success? { cache := map[]; }
    }

    method TransferOwnership(id: int, owner: string) returns (r: Result<Link, DbError>)
      requires Coherent()
      modifies this, inner
      ensures match TransferSpec(old(inner.State()), id, owner)
              case Failure(e) => r == Failure(e) && inner.State() == old(inner.State())
              case Success(db) => inner.State() == db && id in db.rows && r == Success(db.rows[id])
      ensures CacheStep(capacity, old(inner.State()), old(cache), Op.Transfer(id, owner), cache, None)
      ensures Coherent()
    {
      ghost var op, before := Op.Transfer(id, owner), inner.State();
      r := inner.TransferOwnership(id, owner);
      assert inner.State() == Next(before, op);
      if r.Success? {
        OneNameGoes(before, cache, op);
        cache := cache - {r.value.nameLower};
      }
      AfterWrite(capacity, before, old(cache), op, cache);
    }

    method ReassignLinks(fromOwner: string, toOwner: string) returns (n: nat)
      requires Coherent()
      modifies this, inner
      ensures inner.State() == ReassignSpec(old(inner.State()), fromOwner, toOwner)
      ensures CacheStep(capacity, old(inner.State()), old(cache), Reassign(fromOwner, toOwner), cache, None)
      ensures Coherent()
    {
      n := inner.ReassignLinks(fromOwner, toOwner);
      cache := map[];
    }

    method AddShare(id: int, email: string)
      requires Coherent() && id in inner.rows
      modifies this, inner
      ensures inner.State() == ShareSpec(old(inner.State()), id, email) && cache == old(cache)
      ensures Coherent()
    {
      inner.AddShare(id, email);
    }

    method List(limit: nat, offset: nat, o: Order, publicOnly: bool) returns (page: seq<Link>, total: nat)
      requires Valid(inner.State())
      ensures PageOf(page, Listed(inner.rows, publicOnly), o, limit, offset) && total == |Listed(inner.rows, publicOnly)|
    {
      page, total := inner.List(limit, offset, o, publicOnly);
    }

    method GetShares(id: int) returns (emails: seq<string>)
      ensures (set e | e in emails) == SharesOf(inner.State(), id)
    {
      emails := inner.GetShares(id);
    }

    method CountAliases(n: string) returns (count: nat)
      ensures count == |Targeting(inner.rows, n)|
    {
      count := inner.CountAliases(n);
    }
  }
}
