/** Visits, requests and the counter as one system over the same tables: a visit looks up, decides and
    counts, with anything in between; requests insert and delete the rows the counter writes to. */
module Service {
  import opened Common
  import opened Text
  import opened LinkStore
  import opened AliasGraph
  import opened Handlers
  import opened Invariants
  import R = Redirect
  import UC = UseCounter

  /** A visit under way: the link looked up, in the tables of that moment; then, with the tables of
      its second lookup, all decided and on its way to count a link. */
  datatype Serving =
    | Asked(asked: Rows, v: R.Visit)
    | Counting(done: R.Served, id: int)

  datatype World = World(db: Db, uc: UC.State, serving: map<int, Serving>, visits: R.Visits)

  datatype Event =
    | Lookup(thread: int, v: R.Visit)
    | Decide(thread: int)
    | Count(thread: int)
    | Requested(req: Request)
    | Counter(e: UC.Event, now: int)

  /** What a request means to the counter: a row more, a row less, or nothing. */
  ghost function RowEvent(db: Db, cfg: Config, req: Request): Option<UC.Event> {
    if Answer(db, cfg, req).Failure? then None
    else if req.New? || req.NewAlias? then Some(UC.InsertRow(db.nextId))
    else if req.Remove? then Some(UC.DeleteRow(Find(db.rows, ToLower(req.name)).value.id))
    else None
  }

  ghost function DoIf(uc: UC.State, e: Option<UC.Event>): UC.State
    requires e.Some? ==> UC.Enabled(uc, e.value)
  {
    if e.Some? then UC.Do(uc, e.value) else uc
  }

  ghost predicate Enabled(cfg: Config, w: World, e: Event) {
    match e
    case Lookup(t, _) => t !in w.serving
    case Decide(t) => t in w.serving && w.serving[t].Asked?
    case Count(t) => t in w.serving && w.serving[t].Counting? && UC.Enabled(w.uc, UC.Lock(t, w.serving[t].id))
    case Requested(req) =>
      !req.Counted? && (RowEvent(w.db, cfg, req).Some? ==> UC.Enabled(w.uc, RowEvent(w.db, cfg, req).value))
    case Counter(c, _) => UC.Enabled(w.uc, c) && !c.Lock? && !c.InsertRow? && !c.DeleteRow?
  }

  ghost function Do(cfg: Config, engine: R.Engine, w: World, e: Event): World
    requires Enabled(cfg, w, e)
  {
    match e
    case Lookup(t, v) =>
      if Find(w.db.rows, ToLower(v.name)).None? then w.(visits := w.visits + [R.Served(w.db.rows, w.db.rows, v)])
      else w.(serving := w.serving[t := Asked(w.db.rows, v)])
    case Decide(t) =>
      var done := R.Served(w.serving[t].asked, w.db.rows, w.serving[t].v);
      var hit := R.HitOf(done, engine);
      if hit.None? then w.(serving := w.serving - {t}, visits := w.visits + [done])
      else w.(serving := w.serving[t := Counting(done, hit.value)])
    case Count(t) =>
      w.(uc := UC.Do(w.uc, UC.Lock(t, w.serving[t].id)), serving := w.serving - {t}, visits := w.visits + [w.serving[t].done])
    case Requested(req) => w.(db := Step(w.db, cfg, req), uc := DoIf(w.uc, RowEvent(w.db, cfg, req)))
    case Counter(c, now) =>
      var db := if c.Write? && c.ok then AddUsesSpec(w.db, c.id, w.uc.worker.batch[c.id], now) else w.db;
      w.(db := db, uc := UC.Do(w.uc, c))
  }

  ghost predicate CanRun(cfg: Config, engine: R.Engine, w: World, es: seq<Event>)
    decreases |es|
  {
    es != [] ==> Enabled(cfg, w, es[0]) && CanRun(cfg, engine, Do(cfg, engine, w, es[0]), es[1..])
  }

  ghost function After(cfg: Config, engine: R.Engine, w: World, es: seq<Event>): World
    requires CanRun(cfg, engine, w, es)
    decreases |es|
  {
    if es == [] then w else After(cfg, engine, Do(cfg, engine, w, es[0]), es[1..])
  }

  // ---- the counter's rows are the table's ---------------------------------------------------------

  ghost predicate Linked(rows: Rows, counts: Counts) {
    counts.Keys == rows.Keys && forall i :: i in rows ==> counts[i] == rows[i].useCount
  }

  ghost predicate SameCounts(a: Rows, b: Rows) { a.Keys == b.Keys && forall i :: i in a ==> a[i].useCount == b[i].useCount }

  lemma EditCounts(db: Db, cfg: Config, l: Link, e: Edit, after: Db)
    requires EditLink(db, cfg, l, e) == Success(after)
    ensures SameCounts(db.rows, after.rows)
  {
    if e.lt.Alias? {
      var to := Resolve(db.rows, e.requested, l.nameLower).value;
      forall i | i in db.rows ensures i in after.rows && after.rows[i].useCount == db.rows[i].useCount {
        assert after.rows[i] == Reparented(db.rows[i], l.id, db.rows[l.id].nameLower, l.name, to, e.auth);
      }
    }
  }

  lemma CreateCounts(db: Db, name: string, target: string, owner: string, lt: LinkType, to: string,
                     auth: bool, now: int, after: Db, counts: Counts)
    requires Valid(db) && Linked(db.rows, counts)
    requires CreateSpec(db, name, target, owner, lt, to, auth, now) == Success(after)
    ensures db.nextId !in counts && Linked(after.rows, counts[db.nextId := 0])
  {
    var more := counts[db.nextId := 0];
    assert more.Keys == after.rows.Keys;
    forall i | i in after.rows ensures more[i] == after.rows[i].useCount {}
  }

  lemma RemoveCounts(db: Db, id: int, counts: Counts)
    requires Linked(db.rows, counts)
    ensures Linked(db.rows - {id}, counts - {id})
  {
  }

  lemma OtherCounts(db: Db, cfg: Config, req: Request, after: Db)
    requires Inv(db) && Answer(db, cfg, req) == Success(after)
    requires !req.New? && !req.NewAlias? && !req.Remove? && !req.Counted?
    ensures SameCounts(db.rows, after.rows)
  {
    match req
    case Patch(name, m) =>
      EditCounts(db, cfg, Find(db.rows, ToLower(name)).value, Masked(Find(db.rows, ToLower(name)).value, m), after);
    case Details(name, lt, target, aliasTarget, auth) =>
      EditCounts(db, cfg, Find(db.rows, ToLower(name)).value, Form(lt, target, aliasTarget, auth), after);
    case _ =>
  }

  lemma NewCounts(db: Db, cfg: Config, req: Request, after: Db, counts: Counts)
    requires Inv(db) && Answer(db, cfg, req) == Success(after) && (req.New? || req.NewAlias?) && Linked(db.rows, counts)
    ensures db.nextId !in counts && Linked(after.rows, counts[db.nextId := 0])
  {
    match req
    case New(p, owner, now) =>
      var to := if p.lt.Alias? then Resolve(db.rows, p.aliasTarget, "").value else p.aliasTarget;
      CreateCounts(db, p.name, p.target, owner, p.lt, to, p.auth, now, after, counts);
    case NewAlias(canonical, aliasName, owner, now) =>
      CreateCounts(db, TrimSpace(aliasName), "", owner, Alias, ToLower(canonical), false, now, after, counts);
  }

  /** A request that is carried out finds the counter's rows ready for it, and leaves them linked. */
  lemma RequestLinked(w: World, cfg: Config, req: Request)
    requires Inv(w.db) && Linked(w.db.rows, w.uc.rows) && !req.Counted?
    ensures RowEvent(w.db, cfg, req).Some? ==> UC.Enabled(w.uc, RowEvent(w.db, cfg, req).value)
    ensures Linked(Step(w.db, cfg, req).rows, DoIf(w.uc, RowEvent(w.db, cfg, req)).rows)
  {
    var answer := Answer(w.db, cfg, req);
    if answer.Success? {
      if req.New? || req.NewAlias? {
        NewCounts(w.db, cfg, req, answer.value, w.uc.rows);
      } else if req.Remove? {
        Found(w.db, ToLower(req.name));
        RemoveCounts(w.db, Find(w.db.rows, ToLower(req.name)).value.id, w.uc.rows);
      } else {
        OtherCounts(w.db, cfg, req, answer.value);
      }
    }
  }

  lemma CounterLinked(w: World, c: UC.Event, now: int)
    requires Inv(w.db) && Linked(w.db.rows, w.uc.rows)
    requires UC.Enabled(w.uc, c) && !c.Lock? && !c.InsertRow? && !c.DeleteRow?
    ensures var db := if c.Write? && c.ok then AddUsesSpec(w.db, c.id, w.uc.worker.batch[c.id], now) else w.db;
            Inv(db) && Linked(db.rows, UC.Do(w.uc, c).rows)
  {
    if c.Write? && c.ok { InvCounted(w.db, c.id, w.uc.worker.batch[c.id], now); }
  }

  // ---- the books ----------------------------------------------------------------------------------

  /** Every counted visit is a call of Increment, on top of what was stored at the start. */
  ghost predicate Counted(start: Counts, w: World, engine: R.Engine) {
    forall id: int :: At(w.uc.calls, id) == At(start, id) + |R.CountedVisits(w.visits, engine, id)|
  }

  /** A visit on its way to count will be one counted for that link. */
  ghost predicate Decided(serving: map<int, Serving>, engine: R.Engine) {
    forall t :: t in serving && serving[t].Counting? ==> R.HitOf(serving[t].done, engine) == Some(serving[t].id)
  }

  ghost predicate Books(start: Counts, w: World, engine: R.Engine) {
    Inv(w.db) && Linked(w.db.rows, w.uc.rows) && UC.Inv(w.uc) && Decided(w.serving, engine) && Counted(start, w, engine)
  }

  lemma CallsStep(s: UC.State, e: UC.Event, id: int)
    requires UC.Enabled(s, e)
    ensures At(UC.Do(s, e).calls, id) == At(s.calls, id) + if e.Lock? && e.id == id then 1 else 0
  {
  }

  lemma OneMore(visits: R.Visits, done: R.Served, engine: R.Engine, id: int)
    ensures |R.CountedVisits(visits + [done], engine, id)| ==
              |R.CountedVisits(visits, engine, id)| + if R.HitOf(done, engine) == Some(id) then 1 else 0
  {
    var more := visits + [done];
    assert more[..|more| - 1] == visits && more[|more| - 1] == done;
    R.OneMoreVisit(more, engine, id);
    R.CountedForHit(done, engine, id);
  }

  lemma LookupBooks(start: Counts, cfg: Config, engine: R.Engine, w: World, t: int, v: R.Visit)
    requires Books(start, w, engine) && Enabled(cfg, w, Lookup(t, v))
    ensures Books(start, Do(cfg, engine, w, Lookup(t, v)), engine)
  {
    forall id: int { OneMore(w.visits, R.Served(w.db.rows, w.db.rows, v), engine, id); }
  }

  lemma DecideBooks(start: Counts, cfg: Config, engine: R.Engine, w: World, t: int)
    requires Books(start, w, engine) && Enabled(cfg, w, Decide(t))
    ensures Books(start, Do(cfg, engine, w, Decide(t)), engine)
  {
    forall id: int { OneMore(w.visits, R.Served(w.serving[t].asked, w.db.rows, w.serving[t].v), engine, id); }
  }

  lemma CountBooks(start: Counts, cfg: Config, engine: R.Engine, w: World, t: int)
    requires Books(start, w, engine) && Enabled(cfg, w, Count(t))
    ensures Books(start, Do(cfg, engine, w, Count(t)), engine)
  {
    var lock := UC.Lock(t, w.serving[t].id);
    UC.InvStep(w.uc, lock);
    assert Linked(w.db.rows, UC.Do(w.uc, lock).rows);
    forall id: int
      ensures At(UC.Do(w.uc, lock).calls, id) ==
                At(start, id) + |R.CountedVisits(w.visits + [w.serving[t].done], engine, id)|
    {
      OneMore(w.visits, w.serving[t].done, engine, id);
      CallsStep(w.uc, lock, id);
    }
  }

  lemma RequestBooks(start: Counts, cfg: Config, engine: R.Engine, w: World, req: Request)
    requires Books(start, w, engine) && Enabled(cfg, w, Requested(req))
    ensures Books(start, Do(cfg, engine, w, Requested(req)), engine)
  {
    var row := RowEvent(w.db, cfg, req);
    RequestLinked(w, cfg, req);
    Invariants.InvStep(w.db, cfg, req);
    if row.Some? {
      UC.InvStep(w.uc, row.value);
      forall id: int { CallsStep(w.uc, row.value, id); }
    }
  }

  lemma CounterBooks(start: Counts, cfg: Config, engine: R.Engine, w: World, c: UC.Event, now: int)
    requires Books(start, w, engine) && Enabled(cfg, w, Counter(c, now))
    ensures Books(start, Do(cfg, engine, w, Counter(c, now)), engine)
  {
    CounterLinked(w, c, now);
    UC.InvStep(w.uc, c);
    forall id: int { CallsStep(w.uc, c, id); }
  }

  /** In every reachable state the books balance: the counter's rows are the table's use counts, its
      own invariants hold, and each link's calls are the counted visits to its own name. */
  lemma {:induction false} BooksRun(start: Counts, cfg: Config, engine: R.Engine, w: World, es: seq<Event>)
    requires Books(start, w, engine) && CanRun(cfg, engine, w, es)
    ensures Books(start, After(cfg, engine, w, es), engine)
    decreases |es|
  {
    if es != [] {
      match es[0] {
        case Lookup(t, v) => LookupBooks(start, cfg, engine, w, t, v);
        case Decide(t) => DecideBooks(start, cfg, engine, w, t);
        case Count(t) => CountBooks(start, cfg, engine, w, t);
        case Requested(req) => RequestBooks(start, cfg, engine, w, req);
        case Counter(c, now) => CounterBooks(start, cfg, engine, w, c, now);
      }
      BooksRun(start, cfg, engine, Do(cfg, engine, w, es[0]), es[1..]);
    }
  }

  /** From visits to stored counts, for every interleaving of the lookups, decisions and increments of
      visits with requests and the counter: after
      Shutdown the use count in each link's row has grown by the number of counted visits to its own
      name, less what failed writes took; and what deleted rows took is accounted for too. */
  lemma StoredCountsAreVisits(cfg: Config, engine: R.Engine, w: World, es: seq<Event>, id: int)
    requires Inv(w.db) && Linked(w.db.rows, w.uc.rows) && UC.Initial(w.uc) && w.serving == map[] && w.visits == []
    requires CanRun(cfg, engine, w, es) && After(cfg, engine, w, es).uc.worker.Done?
    ensures var end := After(cfg, engine, w, es);
            var stored := if id in end.db.rows then end.db.rows[id].useCount else 0;
            stored + At(end.uc.lost, id) == At(w.uc.rows, id) + |R.CountedVisits(end.visits, engine, id)|
  {
    forall i: int ensures At(w.uc.calls, i) == At(w.uc.rows, i) + |R.CountedVisits(w.visits, engine, i)| {
      assert R.CountedVisits(w.visits, engine, i) == {};
    }
    assert UC.Inv(w.uc);
    BooksRun(w.uc.rows, cfg, engine, w, es);
    var end := After(cfg, engine, w, es);
    assert UC.Total(end.uc, id) == At(end.uc.calls, id);
  }

  /** No request that is carried out is ever held up by the counter. */
  lemma RequestsAreFree(start: Counts, cfg: Config, engine: R.Engine, w: World, req: Request)
    requires Books(start, w, engine) && !req.Counted?
    ensures Enabled(cfg, w, Requested(req))
  {
    RequestLinked(w, cfg, req);
  }
}
