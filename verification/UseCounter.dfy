/** Batched use counts: the protocol between incrementing threads, the one-slot nudge channel,
    the ticker, the worker and Shutdown, as a step system; then the same code as a class. */
module UseCounter {
  import opened Common
  import opened LinkStore
  import opened LinkRepo

  /** Where the worker stands: in its select, holding a reason to flush (`last` when the channel
      was found closed), writing a swapped-out batch row by row, or returned. */
  datatype Worker = Selecting | Swapping(last: bool) | Writing(batch: Counts, last: bool) | Done

  /** `unlocked` holds the threads between their unlock and their nudge. `rows` is the stored
      use_count of every existing row; `lost` what failed writes and deleted rows took away;
      `calls` how often Increment has counted each id. */
  datatype State = State(
    counts: Counts, nudged: bool, closed: bool, worker: Worker, unlocked: set<int>,
    rows: Counts, lost: Counts, calls: Counts)

  datatype Event =
    | Lock(thread: int, id: int)
    | Nudge(thread: int)
    | Tick
    | Receive
    | Swap
    | Write(id: int, ok: bool)
    | Finish
    | Close
    | InsertRow(id: int)
    | DeleteRow(id: int)

  /** Increment is not called after Shutdown, nor left unfinished by it: a send on a closed
      channel is outside the protocol. */
  predicate Enabled(s: State, e: Event) {
    match e
    case Lock(t, _) => !s.closed && t !in s.unlocked
    case Nudge(t) => t in s.unlocked
    case Tick => s.worker.Selecting?
    case Receive => s.worker.Selecting? && (s.nudged || s.closed)
    case Swap => s.worker.Swapping?
    case Write(id, _) => s.worker.Writing? && id in s.worker.batch
    case Finish => s.worker.Writing? && s.worker.batch == map[]
    case Close => !s.closed && s.unlocked == {}
    case InsertRow(id) => id !in s.rows
    case DeleteRow(id) => id in s.rows
  }

  function Afterwards(last: bool): Worker { if last then Done else Selecting }

  function Do(s: State, e: Event): State
    requires Enabled(s, e)
  {
    match e
    case Lock(t, id) =>
      s.(counts := Bump(s.counts, id, 1), calls := Bump(s.calls, id, 1), unlocked := s.unlocked + {t})
    case Nudge(t) => s.(nudged := true, unlocked := s.unlocked - {t})
    case Tick => s.(worker := Swapping(false))
    case Receive =>
      // a buffered nudge is received before the closing is seen
      if s.nudged then s.(nudged := false, worker := Swapping(false)) else s.(worker := Swapping(true))
    case Swap =>
      if s.counts == map[] then s.(worker := Afterwards(s.worker.last))
      else s.(counts := map[], worker := Writing(s.counts, s.worker.last))
    case Write(id, ok) =>
      var delta := s.worker.batch[id];
      var rest := s.(worker := Writing(s.worker.batch - {id}, s.worker.last));
      if ok && id in s.rows then rest.(rows := Bump(s.rows, id, delta))
      else rest.(lost := Bump(s.lost, id, delta))
    case Finish => s.(worker := Afterwards(s.worker.last))
    case Close => s.(closed := true)
    case InsertRow(id) => s.(rows := s.rows[id := 0])
    case DeleteRow(id) => s.(rows := s.rows - {id}, lost := Bump(s.lost, id, s.rows[id]))
  }

  predicate CanRun(s: State, es: seq<Event>)
    decreases |es|
  {
    es != [] ==> Enabled(s, es[0]) && CanRun(Do(s, es[0]), es[1..])
  }

  function After(s: State, es: seq<Event>): State
    requires CanRun(s, es)
    decreases |es|
  {
    if es == [] then s else After(Do(s, es[0]), es[1..])
  }

  /** At the start nothing is under way; counts already stored stand for earlier calls. */
  predicate Initial(s: State) {
    && s.counts == map[] && !s.nudged && !s.closed && s.worker.Selecting? && s.unlocked == {}
    && s.lost == map[] && s.calls == s.rows
  }

  // ---- invariants ----------------------------------------------------------------------------

  function InFlight(w: Worker): Counts { if w.Writing? then w.batch else map[] }

  /** Stored, pending, being written, or lost. */
  function Total(s: State, id: int): nat {
    At(s.rows, id) + At(s.counts, id) + At(InFlight(s.worker), id) + At(s.lost, id)
  }

  /** Every counted use is in exactly one place. */
  ghost predicate Conserved(s: State) {
    forall id: int :: Total(s, id) == At(s.calls, id)
  }

  /** Whenever something is pending, something will make the worker look. */
  ghost predicate WakeUpPending(s: State) {
    s.counts != map[] ==> s.nudged || s.unlocked != {} || s.worker.Swapping? || s.closed
  }

  /** The worker's last flush comes after the closing and finds everything. */
  ghost predicate LastIsLast(s: State) {
    && (s.closed ==> s.unlocked == {})
    && ((s.worker.Swapping? || s.worker.Writing?) && s.worker.last ==> s.closed && !s.nudged)
    && (s.worker.Writing? && s.worker.last ==> s.counts == map[])
    && (s.worker.Done? ==> s.closed && !s.nudged && s.counts == map[])
  }

  ghost predicate Inv(s: State) { Conserved(s) && WakeUpPending(s) && LastIsLast(s) }

  lemma Without(m: Counts, k: int, id: int)
    requires k in m
    ensures At(m - {k}, id) == if id == k then 0 else At(m, id)
    ensures |m - {k}| < |m|
  {
    assert (m - {k}).Keys == m.Keys - {k};
    assert |m.Keys - {k}| < |m.Keys|;
  }

  lemma TotalStored(s: State, k: int, id: int)
    requires Enabled(s, Write(k, true)) && k in s.rows
    ensures Total(Do(s, Write(k, true)), id) == Total(s, id)
  {
    Without(s.worker.batch, k, id);
  }

  lemma TotalLost(s: State, k: int, ok: bool, id: int)
    requires Enabled(s, Write(k, ok)) && !(ok && k in s.rows)
    ensures Total(Do(s, Write(k, ok)), id) == Total(s, id)
  {
    Without(s.worker.batch, k, id);
  }

  lemma TotalSwap(s: State, id: int)
    requires Enabled(s, Swap)
    ensures Total(Do(s, Swap), id) == Total(s, id)
  {
    assert InFlight(Do(s, Swap).worker) == s.counts;
  }

  lemma TotalLock(s: State, t: int, k: int, id: int)
    requires Enabled(s, Lock(t, k))
    ensures Total(Do(s, Lock(t, k)), id) == Total(s, id) + if k == id then 1 else 0
  {
  }

  lemma TotalRow(s: State, e: Event, id: int)
    requires Enabled(s, e) && (e.InsertRow? || e.DeleteRow?)
    ensures Total(Do(s, e), id) == Total(s, id)
  {
    if e.DeleteRow? { Without(s.rows, e.id, id); }
  }

  lemma TotalSame(s: State, e: Event, id: int)
    requires Enabled(s, e) && (e.Nudge? || e.Tick? || e.Receive? || e.Finish? || e.Close?)
    ensures Total(Do(s, e), id) == Total(s, id)
  {
  }

  /** Every step keeps the total of every id; only Lock, counting it, adds one. */
  lemma TotalStep(s: State, e: Event, id: int)
    requires Enabled(s, e)
    ensures Total(Do(s, e), id) == Total(s, id) + if e.Lock? && e.id == id then 1 else 0
  {
    match e
    case Lock(t, k) => TotalLock(s, t, k, id);
    case Write(k, ok) => if ok && k in s.rows { TotalStored(s, k, id); } else { TotalLost(s, k, ok, id); }
    case Swap => TotalSwap(s, id);
    case InsertRow(_) => TotalRow(s, e, id);
    case DeleteRow(_) => TotalRow(s, e, id);
    case _ => TotalSame(s, e, id);
  }

  lemma ConservedStep(s: State, e: Event)
    requires Conserved(s) && Enabled(s, e)
    ensures Conserved(Do(s, e))
  {
    forall id: int ensures Total(Do(s, e), id) == At(Do(s, e).calls, id) {
      TotalStep(s, e, id);
      assert Total(s, id) == At(s.calls, id);
    }
  }

  lemma WakeUpStep(s: State, e: Event)
    requires WakeUpPending(s) && LastIsLast(s) && Enabled(s, e)
    ensures WakeUpPending(Do(s, e))
  {
  }

  lemma LastStep(s: State, e: Event)
    requires LastIsLast(s) && Enabled(s, e)
    ensures LastIsLast(Do(s, e))
  {
  }

  lemma InvStep(s: State, e: Event)
    requires Inv(s) && Enabled(s, e)
    ensures Inv(Do(s, e))
  {
    ConservedStep(s, e);
    WakeUpStep(s, e);
    LastStep(s, e);
  }

  /** In every reachable state, midway through a flush included, every count is conserved, no
      wake-up is lost, and the worker has returned only if nothing was left behind. */
  lemma {:induction false} InvRun(s: State, es: seq<Event>)
    requires Inv(s) && CanRun(s, es)
    ensures Inv(After(s, es))
    decreases |es|
  {
    if es != [] {
      InvStep(s, es[0]);
      InvRun(Do(s, es[0]), es[1..]);
    }
  }

  /** When Shutdown returns nil, every call of Increment has been handed to the database. */
  lemma FullDrain(start: State, es: seq<Event>)
    requires Initial(start) && CanRun(start, es) && After(start, es).worker.Done?
    ensures var s := After(start, es);
            && s.closed && s.counts == map[]
            && forall id: int :: At(s.rows, id) + At(s.lost, id) == At(s.calls, id)
  {
    InvRun(start, es);
    var s := After(start, es);
    forall id: int ensures At(s.rows, id) + At(s.lost, id) == At(s.calls, id) {
      assert Total(s, id) == At(s.calls, id);
    }
  }

  // ---- progress ------------------------------------------------------------------------------

  lemma {:induction false} RunOn(s: State, es: seq<Event>, fs: seq<Event>)
    requires CanRun(s, es) && CanRun(After(s, es), fs)
    ensures CanRun(s, es + fs) && After(s, es + fs) == After(After(s, es), fs)
    decreases |es|
  {
    if es == [] {
      assert es + fs == fs;
    } else {
      RunOn(Do(s, es[0]), es[1..], fs);
      assert (es + fs)[1..] == es[1..] + fs;
    }
  }

  /** The worker writes one more row and every write succeeds. */
  lemma WritesOne(s: State, id: int)
    requires s.worker.Writing? && id in s.worker.batch
    ensures var t := Do(s, Write(id, true));
            && t.worker.Writing? && t.worker.last == s.worker.last && |t.worker.batch| < |s.worker.batch|
            && t.counts == s.counts && t.nudged == s.nudged && t.closed == s.closed
  {
    Without(s.worker.batch, id, id);
    assert Do(s, Write(id, true)).worker == Writing(s.worker.batch - {id}, s.worker.last);
  }

  /** The worker, left alone, finishes the batch it is writing. */
  lemma {:induction false} FinishesBatch(s: State) returns (es: seq<Event>)
    requires s.worker.Writing?
    ensures CanRun(s, es) && (forall e :: e in es ==> e.Write? || e.Finish?)
    ensures var t := After(s, es);
            && t.worker == Afterwards(s.worker.last)
            && t.counts == s.counts && t.nudged == s.nudged && t.closed == s.closed
    decreases |s.worker.batch|
  {
    if s.worker.batch == map[] {
      es := [Finish];
      assert es[1..] == [];
    } else {
      SomeKey(s.worker.batch);
      var id :| id in s.worker.batch;
      WritesOne(s, id);
      var rest := FinishesBatch(Do(s, Write(id, true)));
      es := [Write(id, true)] + rest;
      assert es[1..] == rest;
    }
  }

  /** From a swap onwards: what is pending is taken over and written. */
  lemma FlushesAll(s: State) returns (es: seq<Event>)
    requires s.worker.Swapping?
    ensures CanRun(s, es) && Tick !in es
    ensures var t := After(s, es);
            && t.counts == map[] && t.worker == Afterwards(s.worker.last)
            && t.nudged == s.nudged && t.closed == s.closed
  {
    var s1 := Do(s, Swap);
    if s.counts == map[] {
      es := [Swap];
      assert es[1..] == [];
    } else {
      var rest := FinishesBatch(s1);
      es := [Swap] + rest;
      assert es[1..] == rest;
    }
  }

  lemma Receives(s: State) returns (es: seq<Event>)
    requires Enabled(s, Receive)
    ensures CanRun(s, es) && Tick !in es
    ensures var t := After(s, es);
            && t.counts == map[] && !t.nudged && t.closed == s.closed
            && t.worker == Afterwards(!s.nudged)
  {
    var rest := FlushesAll(Do(s, Receive));
    es := [Receive] + rest;
    assert es[1..] == rest;
  }

  /** The worker comes back to its select or returns, on its own. */
  lemma ComesBack(s: State) returns (es: seq<Event>)
    requires !s.worker.Done?
    ensures CanRun(s, es) && Tick !in es
    ensures var t := After(s, es);
            && t.nudged == s.nudged && t.closed == s.closed
            && (s.worker.Swapping? ==> t.counts == map[])
            && (!s.worker.Swapping? ==> t.counts == s.counts)
            && t.worker == if s.worker.Selecting? then Selecting else Afterwards(s.worker.last)
  {
    match s.worker
    case Selecting => es := [];
    case Swapping(_) => es := FlushesAll(s);
    case Writing(_, _) => es := FinishesBatch(s);
  }

  /** No lost wake-up, as an ability: once every incrementer has nudged, the worker can hand over
      all that is pending without the ticker ever firing. */
  lemma FlushedWithoutTicker(s: State) returns (es: seq<Event>)
    requires Inv(s) && s.unlocked == {}
    ensures CanRun(s, es) && Tick !in es && After(s, es).counts == map[]
  {
    if s.worker.Done? {
      es := [];
    } else {
      var back := ComesBack(s);
      InvRun(s, back);
      var t := After(s, back);
      if t.counts == map[] {
        es := back;
      } else {
        assert Enabled(t, Receive);
        var more := Receives(t);
        RunOn(s, back, more);
        es := back + more;
      }
    }
  }

  /** Shutdown can always complete: after the closing the worker can reach its return. */
  lemma ShutdownCompletes(s: State) returns (es: seq<Event>)
    requires Inv(s) && s.closed
    ensures CanRun(s, es) && Tick !in es && After(s, es).worker.Done?
  {
    if s.worker.Done? {
      es := [];
    } else {
      var back := ComesBack(s);
      InvRun(s, back);
      var t := After(s, back);
      es := back;
      if !t.worker.Done? {
        var more := Receives(t);
        RunOn(s, es, more);
        es := es + more;
        var u := After(s, es);
        if !u.worker.Done? {
          var last := Receives(u);
          RunOn(s, es, last);
          es := es + last;
        }
      }
    }
  }

  // ---- the class -----------------------------------------------------------------------------

  /** The tables once a whole batch has been written. */
  function Flushed(db: Db, batch: Counts, now: int): Db {
    db.(rows := map i | i in db.rows ::
                  if i in batch then db.rows[i].(useCount := db.rows[i].useCount + batch[i], lastUsedAt := Some(now))
                  else db.rows[i])
  }

  class Counter {
    const db: SQLLinkRepo
    var counts: Counts

    constructor (db: SQLLinkRepo)
      ensures this.db == db && counts == map[]
    {
      this.db, counts := db, map[];
    }

    method Increment(id: int)
      modifies this
      ensures counts == Bump(old(counts), id, 1)
    {
      counts := counts[id := (if id in counts then counts[id] else 0) + 1];
    }

    /** The map is swapped out whole, then written row by row in any order. */
    method Flush(now: int)
      requires Valid(db.State())
      modifies this, db
      ensures Valid(db.State()) && counts == map[]
      ensures db.State() == Flushed(old(db.State()), old(counts), now)
    {
      FlushNone(db.State(), now);
      if |counts| == 0 {
        assert counts == map[];
        return;
      }
      var pending := counts;
      counts := map[];
      ghost var done: Counts := map[];
      while pending != map[]
        invariant counts == map[] && Valid(db.State())
        invariant Parts(old(counts), done, pending)
        invariant db.State() == Flushed(old(db.State()), done, now)
        decreases |pending|
      {
        SomeKey(pending);
        var id :| id in pending;
        var delta := pending[id];
        db.AddUses(id, delta, now);
        FlushOneMore(old(db.State()), done, id, delta, now);
        Without(pending, id, id);
        done := done[id := delta];
        pending := pending - {id};
      }
      AllDone(old(counts), done);
    }
  }

  lemma FlushNone(db: Db, now: int)
    ensures Flushed(db, map[], now) == db
  {
    assert Flushed(db, map[], now).rows == db.rows;
  }

  /** A batch of which part is written. */
  ghost predicate Parts(whole: Counts, done: Counts, pending: Counts) {
    && (forall k :: k in whole <==> k in done || k in pending)
    && (forall k :: k in done ==> k !in pending && whole[k] == done[k])
    && (forall k :: k in pending ==> whole[k] == pending[k])
  }

  lemma AllDone(whole: Counts, done: Counts)
    requires Parts(whole, done, map[])
    ensures done == whole
  {
    forall k ensures k in done <==> k in whole {}
    forall k | k in done ensures done[k] == whole[k] {}
    assert done.Keys == whole.Keys;
  }

  lemma FlushOneMore(db: Db, done: Counts, id: int, delta: nat, now: int)
    requires id !in done
    ensures AddUsesSpec(Flushed(db, done, now), id, delta, now) == Flushed(db, done[id := delta], now)
  {
    assert AddUsesSpec(Flushed(db, done, now), id, delta, now).rows == Flushed(db, done[id := delta], now).rows;
  }
}
