/** Several replicas over one database, each with its own cache, in real time. A miss is a read
    of the database followed, some time later, by the insertion of what was read; so is Create.
    Entries carry an expiry fixed at insertion, and may go earlier for any reason at all. */
module Staleness {
  import opened Common
  import opened LinkStore
  import opened LinkCache

  datatype Entry = Entry(link: Link, expires: int)

  datatype Fetch = Fetch(replica: int, name: string, link: Link, at: int)

  datatype World = World(
    now: int, rows: Rows, entries: map<(int, string), Entry>, fetching: map<int, Fetch>)

  datatype Event =
    | Wait(d: nat)
    | Store(rows: Rows)
    | Begin(thread: int, replica: int, name: string)
    | Fill(thread: int)
    | Drop(keys: set<(int, string)>)
    | Hit(replica: int, name: string)
    | Miss(replica: int, name: string)

  /** A ttl of 0 disables expiry by time. */
  predicate Live(ttl: nat, e: Entry, now: int) { ttl == 0 || now <= e.expires }

  /** A fetch takes at most `patience` from its read to its insertion. */
  ghost predicate Enabled(ttl: nat, patience: nat, w: World, e: Event) {
    match e
    case Begin(t, _, n) => t !in w.fetching && Find(w.rows, n).Some?
    case Fill(t) => t in w.fetching && w.now - w.fetching[t].at <= patience
    case Hit(r, n) => (r, n) in w.entries && Live(ttl, w.entries[(r, n)], w.now)
    case Miss(r, n) => !((r, n) in w.entries && Live(ttl, w.entries[(r, n)], w.now)) && Find(w.rows, n).None?
    case _ => true
  }

  ghost function Do(ttl: nat, patience: nat, w: World, e: Event): World
    requires Enabled(ttl, patience, w, e)
  {
    match e
    case Wait(d) => w.(now := w.now + d)
    case Store(rows) => w.(rows := rows)
    case Begin(t, r, n) => w.(fetching := w.fetching[t := Fetch(r, n, Find(w.rows, n).value, w.now)])
    case Fill(t) =>
      var f := w.fetching[t];
      w.(entries := w.entries[(f.replica, f.name) := Entry(f.link, w.now + ttl)], fetching := w.fetching - {t})
    case Drop(keys) => w.(entries := w.entries - keys)
    case Hit(_, _) => w
    case Miss(_, _) => w
  }

  /** What a read hands to its caller, if this event completes one. */
  function Served(w: World, e: Event): Option<(string, Option<Link>)> {
    match e
    case Fill(t) => if t in w.fetching then Some((w.fetching[t].name, Some(w.fetching[t].link))) else None
    case Hit(r, n) => if (r, n) in w.entries then Some((n, Some(w.entries[(r, n)].link))) else None
    case Miss(_, n) => Some((n, None))
    case _ => None
  }

  ghost predicate StepsTo(ttl: nat, patience: nat, w: World, e: Event, v: World) {
    Enabled(ttl, patience, w, e) && v == Do(ttl, patience, w, e)
  }

  ghost predicate Run(ttl: nat, patience: nat, ws: seq<World>, es: seq<Event>) {
    && |ws| == |es| + 1
    && ws[0].entries == map[] && ws[0].fetching == map[]
    && forall i :: 0 <= i < |es| ==> StepsTo(ttl, patience, ws[i], es[i], ws[i + 1])
  }

  /** The link was the row of that name, counters aside, at some moment from `since` up to step i. */
  ghost predicate WasCurrent(ws: seq<World>, i: nat, since: int, name: string, link: Link)
    requires i < |ws|
  {
    exists j :: 0 <= j <= i && since <= ws[j].now <= ws[i].now && Agrees(Some(link), Find(ws[j].rows, name))
  }

  ghost predicate EntrySourced(ttl: nat, patience: nat, ws: seq<World>, i: nat, k: (int, string))
    requires i < |ws| && k in ws[i].entries
  {
    WasCurrent(ws, i, ws[i].entries[k].expires - ttl - patience, k.1, ws[i].entries[k].link)
  }

  ghost predicate FetchSourced(ws: seq<World>, i: nat, t: int)
    requires i < |ws| && t in ws[i].fetching
  {
    WasCurrent(ws, i, ws[i].fetching[t].at, ws[i].fetching[t].name, ws[i].fetching[t].link)
  }

  ghost predicate Sourced(ttl: nat, patience: nat, ws: seq<World>, i: nat)
    requires i < |ws|
  {
    && (forall k :: k in ws[i].entries ==> EntrySourced(ttl, patience, ws, i, k))
    && (forall t :: t in ws[i].fetching ==> FetchSourced(ws, i, t))
  }

  lemma Later(ws: seq<World>, i: nat, since: int, earlier: int, name: string, link: Link)
    requires i + 1 < |ws| && ws[i].now <= ws[i + 1].now && WasCurrent(ws, i, since, name, link) && earlier <= since
    ensures WasCurrent(ws, i + 1, earlier, name, link)
  {
  }

  lemma Widen(ws: seq<World>, i: nat, since: int, earlier: int, name: string, link: Link)
    requires i < |ws| && WasCurrent(ws, i, since, name, link) && earlier <= since
    ensures WasCurrent(ws, i, earlier, name, link)
  {
  }

  lemma AtOnce(ws: seq<World>, i: nat, name: string, link: Link)
    requires i < |ws| && Agrees(Some(link), Find(ws[i].rows, name))
    ensures WasCurrent(ws, i, ws[i].now, name, link)
  {
  }

  /** An entry is as old as the fetch that filled it. */
  lemma EntryStep(ttl: nat, patience: nat, ws: seq<World>, i: nat, e: Event, k: (int, string))
    requires i + 1 < |ws| && StepsTo(ttl, patience, ws[i], e, ws[i + 1]) && Sourced(ttl, patience, ws, i)
    requires k in ws[i + 1].entries
    ensures EntrySourced(ttl, patience, ws, i + 1, k)
  {
    var w, v := ws[i], ws[i + 1];
    var since := v.entries[k].expires - ttl - patience;
    if e.Fill? && k == (w.fetching[e.thread].replica, w.fetching[e.thread].name) {
      assert FetchSourced(ws, i, e.thread);
      Later(ws, i, w.fetching[e.thread].at, since, k.1, v.entries[k].link);
    } else {
      assert EntrySourced(ttl, patience, ws, i, k);
      Later(ws, i, since, since, k.1, v.entries[k].link);
    }
  }

  lemma FetchStep(ttl: nat, patience: nat, ws: seq<World>, i: nat, e: Event, t: int)
    requires i + 1 < |ws| && StepsTo(ttl, patience, ws[i], e, ws[i + 1]) && Sourced(ttl, patience, ws, i)
    requires t in ws[i + 1].fetching
    ensures FetchSourced(ws, i + 1, t)
  {
    var f := ws[i + 1].fetching[t];
    if e.Begin? && t == e.thread {
      AtOnce(ws, i + 1, f.name, f.link);
    } else {
      assert FetchSourced(ws, i, t);
      Later(ws, i, f.at, f.at, f.name, f.link);
    }
  }

  lemma {:induction false} AlwaysSourced(ttl: nat, patience: nat, ws: seq<World>, es: seq<Event>, i: nat)
    requires Run(ttl, patience, ws, es) && i <= |es|
    ensures Sourced(ttl, patience, ws, i)
  {
    if i > 0 {
      var last: nat := i - 1;
      AlwaysSourced(ttl, patience, ws, es, last);
      assert StepsTo(ttl, patience, ws[last], es[last], ws[i]);
      forall k | k in ws[i].entries ensures EntrySourced(ttl, patience, ws, i, k) {
        EntryStep(ttl, patience, ws, last, es[last], k);
      }
      forall t | t in ws[i].fetching ensures FetchSourced(ws, i, t) {
        FetchStep(ttl, patience, ws, last, es[last], t);
      }
    }
  }

  /** Bounded staleness: whatever the replicas do, every link served was the database row of its
      name at some moment of the last ttl plus one fetch time (with atomic misses, of the last
      ttl), and whoever is told there is no such link is told the truth. */
  lemma BoundedStaleness(ttl: nat, patience: nat, ws: seq<World>, es: seq<Event>, i: nat)
    requires ttl > 0 && Run(ttl, patience, ws, es) && i < |es| && Served(ws[i], es[i]).Some?
    ensures var (name, answer) := Served(ws[i], es[i]).value;
            match answer
            case Some(link) => WasCurrent(ws, i, ws[i].now - ttl - patience, name, link)
            case None => Find(ws[i].rows, name).None?
  {
    AlwaysSourced(ttl, patience, ws, es, i);
    assert StepsTo(ttl, patience, ws[i], es[i], ws[i + 1]);
    match es[i]
    case Hit(r, n) =>
      assert EntrySourced(ttl, patience, ws, i, (r, n));
      var e := ws[i].entries[(r, n)];
      Widen(ws, i, e.expires - ttl - patience, ws[i].now - ttl - patience, n, e.link);
    case Fill(t) =>
      assert FetchSourced(ws, i, t);
      var f := ws[i].fetching[t];
      Widen(ws, i, f.at, ws[i].now - ttl - patience, f.name, f.link);
    case Miss(_, _) =>
  }

  // ---- what does not hold ----------------------------------------------------------------------

  lemma LongGone(ws: seq<World>, i: nat, since: int, name: string, link: Link, after: Rows)
    requires i < |ws| && forall j :: 0 <= j <= i && since <= ws[j].now ==> ws[j].rows == after
    requires !Agrees(Some(link), Find(after, name))
    ensures !WasCurrent(ws, i, since, name, link)
  {
  }

  /** With ttl 0 there is no bound: a replica that has the old row goes on serving it. */
  lemma NoBoundWithoutTtl(before: Rows, after: Rows, name: string, bound: nat)
    requires Find(before, name).Some? && !Agrees(Find(before, name), Find(after, name))
    ensures exists ws: seq<World>, es: seq<Event> :: Run(0, 0, ws, es) && |es| > 0
              && Served(ws[|es| - 1], es[|es| - 1]) == Some((name, Find(before, name)))
              && !WasCurrent(ws, |es| - 1, ws[|es| - 1].now - bound, name, Find(before, name).value)
  {
    var link := Find(before, name).value;
    var es := [Begin(0, 0, name), Fill(0), Store(after), Wait(bound + 1), Hit(0, name)];
    var w0 := World(0, before, map[], map[]);
    var w1 := Do(0, 0, w0, es[0]);
    var w2 := Do(0, 0, w1, es[1]);
    var w3 := Do(0, 0, w2, es[2]);
    var w4 := Do(0, 0, w3, es[3]);
    var ws := [w0, w1, w2, w3, w4, w4];
    assert Run(0, 0, ws, es);
    assert Served(ws[4], es[4]) == Some((name, Some(link)));
    LongGone(ws, 4, ws[4].now - bound, name, link, after);
  }

  /** Invalidation alone does not make one replica consistent when misses are not atomic: a read
      that began before a write can insert its row after the write's invalidation. */
  lemma InvalidationCanBeOvertaken(ttl: nat, before: Rows, after: Rows, name: string)
    requires Find(before, name).Some? && !Agrees(Find(before, name), Find(after, name))
    ensures exists ws: seq<World>, es: seq<Event> :: Run(ttl, 0, ws, es)
              && es == [Begin(0, 0, name), Store(after), Drop({(0, name)}), Fill(0), Hit(0, name)]
              && ws[4].rows == after && Served(ws[4], es[4]) == Some((name, Find(before, name)))
  {
    var es := [Begin(0, 0, name), Store(after), Drop({(0, name)}), Fill(0), Hit(0, name)];
    var w0 := World(0, before, map[], map[]);
    var w1 := Do(ttl, 0, w0, es[0]);
    var w2 := Do(ttl, 0, w1, es[1]);
    var w3 := Do(ttl, 0, w2, es[2]);
    var w4 := Do(ttl, 0, w3, es[3]);
    var ws := [w0, w1, w2, w3, w4, w4];
    assert Run(ttl, 0, ws, es);
    assert Served(ws[4], es[4]) == Some((name, Find(before, name)));
  }

  /** The bound is tight: for any patience, and any window shorter than ttl plus patience, a run
      serves a link that was never current in that window. */
  lemma FetchTimeCounts(ttl: nat, patience: nat, before: Rows, after: Rows, name: string, window: nat)
    requires ttl > 0 && window < ttl + patience && Find(before, name).Some? && Moves(before, after, name)
    ensures exists ws: seq<World>, es: seq<Event> :: Run(ttl, patience, ws, es) && |es| > 0
              && Served(ws[|es| - 1], es[|es| - 1]) == Some((name, Find(before, name)))
              && !WasCurrent(ws, |es| - 1, ws[|es| - 1].now - window, name, Find(before, name).value)
  {
    var link := Find(before, name).value;
    var es := [Begin(0, 0, name), Store(after), Wait(patience), Fill(0), Wait(ttl), Hit(0, name)];
    var w0 := World(0, before, map[], map[]);
    var w1 := Do(ttl, patience, w0, es[0]);
    var w2 := Do(ttl, patience, w1, es[1]);
    var w3 := Do(ttl, patience, w2, es[2]);
    var w4 := Do(ttl, patience, w3, es[3]);
    var w5 := Do(ttl, patience, w4, es[4]);
    var ws := [w0, w1, w2, w3, w4, w5, w5];
    assert Run(ttl, patience, ws, es);
    assert Served(ws[5], es[5]) == Some((name, Some(link)));
    LongGone(ws, 5, ws[5].now - window, name, link, after);
  }

  // ---- one replica and its own writes ------------------------------------------------------------

  /** A write moves a name when a reader could tell, counters aside. */
  ghost predicate Moves(before: Rows, after: Rows, n: string) { !Agrees(Find(before, n), Find(after, n)) }

  /** A fetch that may still insert what it read. */
  predicate InFlight(patience: nat, w: World, t: int) { t in w.fetching && w.now - w.fetching[t].at <= patience }

  /** No fetch in flight has read a name that the write moves. */
  ghost predicate Quiet(patience: nat, w: World, after: Rows) {
    forall t :: InFlight(patience, w, t) ==> !Moves(w.rows, after, w.fetching[t].name)
  }

  /** The invalidation of replica r that goes with a write: at least the names it moves. */
  ghost predicate Invalidates(r: int, before: Rows, after: Rows, e: Event) {
    e.Drop? && forall n: string :: Find(before, n).Some? && Moves(before, after, n) ==> (r, n) in e.keys
  }

  /** Everything cached, and everything that may yet be, is as the database has it. */
  ghost predicate Current(patience: nat, r: int, w: World) {
    && (forall k :: k in w.entries ==> k.0 == r && Agrees(Some(w.entries[k].link), Find(w.rows, k.1)))
    && (forall t :: t in w.fetching ==> w.fetching[t].replica == r)
    && (forall t :: InFlight(patience, w, t) ==> Agrees(Some(w.fetching[t].link), Find(w.rows, w.fetching[t].name)))
  }

  /** One replica, whose every write is followed at once by its invalidation. */
  ghost predicate Paired(r: int, ws: seq<World>, es: seq<Event>)
    requires |ws| == |es| + 1
  {
    && (forall i :: 0 <= i < |es| && es[i].Begin? ==> es[i].replica == r)
    && (forall i :: 0 <= i < |es| - 1 && es[i].Store? ==> Invalidates(r, ws[i].rows, es[i].rows, es[i + 1]))
  }

  lemma WriteKeeps(patience: nat, r: int, w: World, after: Rows, keys: set<(int, string)>)
    requires Current(patience, r, w) && Quiet(patience, w, after) && Invalidates(r, w.rows, after, Drop(keys))
    ensures Current(patience, r, w.(rows := after, entries := w.entries - keys))
  {
    var v := w.(rows := after, entries := w.entries - keys);
    forall k | k in v.entries ensures k.0 == r && Agrees(Some(v.entries[k].link), Find(after, k.1)) {
      assert k == (r, k.1) && k !in keys;
    }
    forall t | InFlight(patience, v, t) ensures Agrees(Some(v.fetching[t].link), Find(after, v.fetching[t].name)) {
      assert InFlight(patience, w, t);
    }
  }

  lemma StepKeeps(ttl: nat, patience: nat, r: int, w: World, e: Event)
    requires Current(patience, r, w) && Enabled(ttl, patience, w, e) && !e.Store? && (e.Begin? ==> e.replica == r)
    ensures Current(patience, r, Do(ttl, patience, w, e))
  {
    var v := Do(ttl, patience, w, e);
    if e.Fill? { assert InFlight(patience, w, e.thread); }
    forall t | InFlight(patience, v, t) ensures Agrees(Some(v.fetching[t].link), Find(v.rows, v.fetching[t].name)) {
      if !(e.Begin? && t == e.thread) { assert InFlight(patience, w, t); }
    }
  }

  /** Invalidation does keep one replica consistent, misses taking time and all, in every run where
      each write finds no fetch in flight on a name it moves: outside the instant between a write and
      its invalidation every hit is current. */
  lemma {:induction false} QuietWritesStayCurrent(ttl: nat, patience: nat, r: int, ws: seq<World>, es: seq<Event>, i: nat)
    requires Run(ttl, patience, ws, es) && Paired(r, ws, es) && i <= |es|
    requires forall j :: 0 <= j < |es| && es[j].Store? ==> Quiet(patience, ws[j], es[j].rows)
    ensures i == 0 || !es[i - 1].Store? ==> Current(patience, r, ws[i])
    ensures i < |es| && es[i].Hit? ==>
              var answer := Served(ws[i], es[i]); answer.Some? && Agrees(answer.value.1, Find(ws[i].rows, es[i].name))
  {
    assert i < |es| ==> StepsTo(ttl, patience, ws[i], es[i], ws[i + 1]);
    if i > 0 && !es[i - 1].Store? {
      var e := es[i - 1];
      if i > 1 && es[i - 2].Store? {
        QuietWritesStayCurrent(ttl, patience, r, ws, es, i - 2);
        assert Invalidates(r, ws[i - 2].rows, es[i - 2].rows, e);
        WriteKeeps(patience, r, ws[i - 2], es[i - 2].rows, e.keys);
        assert StepsTo(ttl, patience, ws[i - 2], es[i - 2], ws[i - 1]) && StepsTo(ttl, patience, ws[i - 1], e, ws[i]);
      } else {
        QuietWritesStayCurrent(ttl, patience, r, ws, es, i - 1);
        assert StepsTo(ttl, patience, ws[i - 1], e, ws[i]);
        StepKeeps(ttl, patience, r, ws[i - 1], e);
      }
    }
  }

  /** The run continued: the write, its invalidation, the end of fetch t, and a hit on what it left. */
  function Overtaking(w: World, after: Rows, keys: set<(int, string)>, t: int): seq<Event>
    requires t in w.fetching
  {
    [Store(after), Drop(keys), Fill(t), Hit(w.fetching[t].replica, w.fetching[t].name)]
  }

  ghost predicate OvertakenBy(ttl: nat, patience: nat, ws: seq<World>, es: seq<Event>, after: Rows,
                              keys: set<(int, string)>, t: int, vs: seq<World>)
    requires |ws| == |es| + 1
  {
    var n := |es|;
    && t in ws[n].fetching && ws <= vs
    && var fs := es + Overtaking(ws[n], after, keys, t);
       && Run(ttl, patience, vs, fs)
       && Served(vs[n + 3], fs[n + 3]) == Some((ws[n].fetching[t].name, Some(ws[n].fetching[t].link)))
       && !Agrees(Some(ws[n].fetching[t].link), Find(vs[n + 3].rows, ws[n].fetching[t].name))
  }

  lemma Overtakes(ttl: nat, patience: nat, ws: seq<World>, es: seq<Event>, after: Rows, keys: set<(int, string)>, t: int)
    requires Run(ttl, patience, ws, es) && InFlight(patience, ws[|es|], t)
    requires var f := ws[|es|].fetching[t]; !Agrees(Some(f.link), Find(after, f.name))
    ensures exists vs :: OvertakenBy(ttl, patience, ws, es, after, keys, t, vs)
  {
    var w := ws[|es|];
    var fs := Overtaking(w, after, keys, t);
    var w1 := Do(ttl, patience, w, fs[0]);
    var w2 := Do(ttl, patience, w1, fs[1]);
    var w3 := Do(ttl, patience, w2, fs[2]);
    RunMore(ttl, patience, ws, es, fs[0]);
    RunMore(ttl, patience, ws + [w1], es + [fs[0]], fs[1]);
    RunMore(ttl, patience, ws + [w1] + [w2], es + [fs[0]] + [fs[1]], fs[2]);
    RunMore(ttl, patience, ws + [w1] + [w2] + [w3], es + [fs[0]] + [fs[1]] + [fs[2]], fs[3]);
    var vs := ws + [w1] + [w2] + [w3] + [w3];
    assert es + fs == es + [fs[0]] + [fs[1]] + [fs[2]] + [fs[3]];
    assert vs[|es| + 3] == w3;
    assert OvertakenBy(ttl, patience, ws, es, after, keys, t, vs);
  }

  lemma RunMore(ttl: nat, patience: nat, ws: seq<World>, es: seq<Event>, e: Event)
    requires Run(ttl, patience, ws, es) && Enabled(ttl, patience, ws[|es|], e)
    ensures Run(ttl, patience, ws + [Do(ttl, patience, ws[|es|], e)], es + [e])
  {
    var vs, fs := ws + [Do(ttl, patience, ws[|es|], e)], es + [e];
    forall i | 0 <= i < |fs| ensures StepsTo(ttl, patience, vs[i], fs[i], vs[i + 1]) {
      if i < |es| { assert vs[i] == ws[i] && vs[i + 1] == ws[i + 1] && fs[i] == es[i]; }
    }
  }

  /** And only then: from any run that has kept the cache current, a write with its invalidation can
      be overtaken, a hit then serving what the write replaced, exactly when a fetch of a name it
      moves is in flight. */
  lemma OvertakenExactly(ttl: nat, patience: nat, r: int, ws: seq<World>, es: seq<Event>, after: Rows, keys: set<(int, string)>)
    requires Run(ttl, patience, ws, es) && Current(patience, r, ws[|es|])
    requires Invalidates(r, ws[|es|].rows, after, Drop(keys))
    ensures (exists t, vs :: OvertakenBy(ttl, patience, ws, es, after, keys, t, vs)) <==> !Quiet(patience, ws[|es|], after)
  {
    var w := ws[|es|];
    if !Quiet(patience, w, after) {
      var t :| InFlight(patience, w, t) && Moves(w.rows, after, w.fetching[t].name);
      Overtakes(ttl, patience, ws, es, after, keys, t);
    }
    if t, vs :| OvertakenBy(ttl, patience, ws, es, after, keys, t, vs) {
      OvertakenByAFetch(ttl, patience, r, ws, es, after, keys, t, vs);
    }
  }

  lemma OvertakenByAFetch(ttl: nat, patience: nat, r: int, ws: seq<World>, es: seq<Event>, after: Rows,
                          keys: set<(int, string)>, t: int, vs: seq<World>)
    requires Run(ttl, patience, ws, es) && Current(patience, r, ws[|es|])
    requires OvertakenBy(ttl, patience, ws, es, after, keys, t, vs)
    ensures InFlight(patience, ws[|es|], t) && Moves(ws[|es|].rows, after, ws[|es|].fetching[t].name)
  {
    var w, n := ws[|es|], |es|;
    var fs := es + Overtaking(w, after, keys, t);
    assert vs[n] == w && fs[n] == Store(after) && fs[n + 1] == Drop(keys) && fs[n + 2] == Fill(t);
    assert StepsTo(ttl, patience, vs[n], fs[n], vs[n + 1]) && StepsTo(ttl, patience, vs[n + 1], fs[n + 1], vs[n + 2]);
    assert StepsTo(ttl, patience, vs[n + 2], fs[n + 2], vs[n + 3]);
    assert InFlight(patience, w, t);
  }
}
