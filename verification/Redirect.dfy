/** What a visit to a short link answers, and which use counter it increments. */
module Redirect {
  import opened Common
  import opened Text
  import opened LinkStore
  import opened AliasGraph

  /** canonicalHost: the visit already arrived on the canonical host, or none is configured. */
  datatype Visit = Visit(name: string, suffix: string, query: string, userAgent: string,
                         email: Option<string>, canonicalHost: bool)

  /** The URL libraries and the configuration: how a target turns into a URL for a visit. */
  datatype Engine = Engine(
    authForAll: bool, advancedAllowed: bool, domainOk: string -> bool,
    simple: (string, Visit) -> Option<string>, advanced: (string, Visit) -> Option<string>)

  datatype Reply =
    | NoSuchLink | ToCanonicalHost | LoginRequired | DanglingAlias
    | AdvancedDisabled | DomainRefused | BadTarget | Redirected(url: string)

  function Expand(engine: Engine, l: Link, v: Visit): Reply {
    if l.linkType.Advanced? then
      if !engine.advancedAllowed then AdvancedDisabled
      else
        match engine.advanced(l.target, v)
        case None => BadTarget
        case Some(url) => if engine.domainOk(url) then Redirected(url) else DomainRefused
    else
      match engine.simple(l.target, v)
      case None => BadTarget
      case Some(url) => Redirected(url)
  }

  /** What becomes of a visit that the link asked for does not let through. */
  function Refusal(l: Link, engine: Engine, v: Visit): Option<Reply> {
    if !(l.requireAuth || engine.authForAll) then None
    else if !v.canonicalHost then Some(ToCanonicalHost)
    else if v.email.None? then Some(LoginRequired)
    else None
  }

  /** The answer and the id counted, if any, of one it does; `rows` is what the second lookup, of an
      alias's target, meets. */
  ghost function Follow(l: Link, rows: Rows, engine: Engine, v: Visit): (Reply, Option<int>) {
    if l.linkType.Alias? then
      match Find(rows, l.aliasTarget)
      case None => (DanglingAlias, None)
      case Some(c) => (Expand(engine, c, v), Some(l.id))
    else
      var reply := Expand(engine, l, v);
      (reply, if reply.Redirected? then Some(l.id) else None)
  }

  ghost function ServeFrom(l: Link, rows: Rows, engine: Engine, v: Visit): (Reply, Option<int>) {
    match Refusal(l, engine, v)
    case Some(reply) => (reply, None)
    case None => Follow(l, rows, engine, v)
  }

  /** A visit that meets the same tables throughout. */
  ghost function Serve(rows: Rows, engine: Engine, v: Visit): (Reply, Option<int>) {
    match Find(rows, ToLower(v.name))
    case None => (NoSuchLink, None)
    case Some(l) => ServeFrom(l, rows, engine, v)
  }

  /** A visit counts at most once, on the row whose name was asked for and never on one reached
      through an alias; every redirect counts; and an alias counts as soon as its target exists. */
  lemma Attribution(rows: Rows, engine: Engine, v: Visit)
    requires Indexed(rows)
    ensures var (reply, hit) := Serve(rows, engine, v);
            && (hit.Some? ==> hit.value in rows && rows[hit.value].nameLower == ToLower(v.name))
            && (reply.Redirected? ==> hit.Some?)
            && (hit.Some? && !reply.Redirected? ==> rows[hit.value].linkType.Alias?)
  {
  }

  /** The link whose target a visit gets expanded, if it gets so far. */
  ghost function Opened(rows: Rows, engine: Engine, v: Visit): Option<Link> {
    match Find(rows, ToLower(v.name))
    case None => None
    case Some(l) =>
      if Refusal(l, engine, v).Some? then None
      else if l.linkType.Alias? then Find(rows, l.aliasTarget)
      else Some(l)
  }

  /** Only opened links redirect: an expansion of their own target, and for an advanced link only while
      those are enabled and to a permitted domain. */
  lemma OpenedLinksRedirect(rows: Rows, engine: Engine, v: Visit)
    requires Indexed(rows)
    ensures var (reply, open) := (Serve(rows, engine, v).0, Opened(rows, engine, v));
            && (open.Some? ==> open.value.id in rows && rows[open.value.id] == open.value)
            && (open.Some? ==> reply == Expand(engine, open.value, v))
            && (reply.Redirected? ==>
                  open.Some? &&
                  if open.value.linkType.Advanced?
                  then && engine.advancedAllowed && engine.domainOk(reply.url)
                       && engine.advanced(open.value.target, v) == Some(reply.url)
                  else engine.simple(open.value.target, v) == Some(reply.url))
  {
  }

  // ---- every answer, from the tables and the visit ---------------------------------------------

  /** Row i is the one the visit asks for. */
  predicate Asked(rows: Rows, v: Visit, i: int) { i in rows && rows[i].nameLower == ToLower(v.name) }

  predicate Asks(rows: Rows, engine: Engine, i: int)
    requires i in rows
  {
    rows[i].requireAuth || engine.authForAll
  }

  /** It leads on to row j: to itself, or as an alias to the row it names. */
  predicate LeadsTo(rows: Rows, engine: Engine, v: Visit, i: int, j: int) {
    && Asked(rows, v, i) && (Asks(rows, engine, i) ==> v.canonicalHost && v.email.Some?)
    && j in rows && if rows[i].linkType.Alias? then rows[j].nameLower == rows[i].aliasTarget else j == i
  }

  predicate Gives(engine: Engine, l: Link, v: Visit, url: string) {
    if l.linkType.Advanced? then engine.advancedAllowed && engine.advanced(l.target, v) == Some(url) && engine.domainOk(url)
    else engine.simple(l.target, v) == Some(url)
  }

  lemma ServedAt(rows: Rows, engine: Engine, v: Visit, i: int, j: int)
    requires Indexed(rows) && LeadsTo(rows, engine, v, i, j)
    ensures Find(rows, ToLower(v.name)) == Some(rows[i]) && Opened(rows, engine, v) == Some(rows[j])
    ensures Serve(rows, engine, v) == Follow(rows[i], rows, engine, v)
    ensures Serve(rows, engine, v).0 == Expand(engine, rows[j], v)
  {
    FindRow(rows, i);
    FindRow(rows, j);
  }

  lemma AskedRow(rows: Rows, v: Visit, i: int)
    requires Indexed(rows) && Asked(rows, v, i)
    ensures Find(rows, ToLower(v.name)) == Some(rows[i])
  {
    FindRow(rows, i);
  }

  /** Whoever opens a link got there as LeadsTo says, and whoever gets there opens it. */
  lemma OpenedExactly(rows: Rows, engine: Engine, v: Visit, l: Link)
    requires Indexed(rows)
    ensures Opened(rows, engine, v) == Some(l) <==> exists i, j :: LeadsTo(rows, engine, v, i, j) && rows[j] == l
  {
    if i, j :| LeadsTo(rows, engine, v, i, j) && rows[j] == l { ServedAt(rows, engine, v, i, j); }
    if Opened(rows, engine, v) == Some(l) {
      var i := Find(rows, ToLower(v.name)).value.id;
      assert LeadsTo(rows, engine, v, i, l.id) && rows[l.id] == l;
    }
  }

  /** A visit is redirected, and where to: exactly when it leads to a row that gives this URL. */
  lemma RedirectsExactly(rows: Rows, engine: Engine, v: Visit, url: string)
    requires Indexed(rows)
    ensures Serve(rows, engine, v).0 == Redirected(url) <==>
              exists i, j :: LeadsTo(rows, engine, v, i, j) && Gives(engine, rows[j], v, url)
  {
    if i, j :| LeadsTo(rows, engine, v, i, j) && Gives(engine, rows[j], v, url) { ServedAt(rows, engine, v, i, j); }
    if Serve(rows, engine, v).0 == Redirected(url) {
      OpenedLinksRedirect(rows, engine, v);
      var l := Opened(rows, engine, v).value;
      OpenedExactly(rows, engine, v, l);
      var i, j :| LeadsTo(rows, engine, v, i, j) && rows[j] == l;
      assert Gives(engine, rows[j], v, url);
    }
  }

  /** The refusals that need no second row. */
  lemma TurnedAwayExactly(rows: Rows, engine: Engine, v: Visit)
    requires Indexed(rows)
    ensures var reply := Serve(rows, engine, v).0;
            && (reply == NoSuchLink <==> forall i :: !Asked(rows, v, i))
            && (reply == ToCanonicalHost <==> exists i :: Asked(rows, v, i) && Asks(rows, engine, i) && !v.canonicalHost)
            && (reply == LoginRequired <==>
                  exists i :: Asked(rows, v, i) && Asks(rows, engine, i) && v.canonicalHost && v.email.None?)
            && (reply == DanglingAlias <==>
                  exists i :: && Asked(rows, v, i) && (Asks(rows, engine, i) ==> v.canonicalHost && v.email.Some?)
                              && rows[i].linkType.Alias? && forall j :: !LeadsTo(rows, engine, v, i, j))
  {
    if Taken(rows, ToLower(v.name)) {
      var l := Find(rows, ToLower(v.name)).value;
      assert Asked(rows, v, l.id);
      forall i | Asked(rows, v, i) ensures i == l.id && rows[i] == l { AskedRow(rows, v, i); }
      if l.linkType.Alias? && Find(rows, l.aliasTarget).Some? && Refusal(l, engine, v).None? {
        assert LeadsTo(rows, engine, v, l.id, Find(rows, l.aliasTarget).value.id);
      }
      forall j | LeadsTo(rows, engine, v, l.id, j) { ServedAt(rows, engine, v, l.id, j); }
    } else {
      forall i ensures !Asked(rows, v, i) {}
    }
  }

  /** Those on account of the link opened. */
  lemma RefusedExactly(rows: Rows, engine: Engine, v: Visit)
    requires Indexed(rows)
    ensures var reply := Serve(rows, engine, v).0;
            && (reply == AdvancedDisabled <==>
                  exists i, j :: LeadsTo(rows, engine, v, i, j) && rows[j].linkType.Advanced? && !engine.advancedAllowed)
            && (reply == DomainRefused <==>
                  exists i, j :: && LeadsTo(rows, engine, v, i, j) && rows[j].linkType.Advanced? && engine.advancedAllowed
                                 && var url := engine.advanced(rows[j].target, v); url.Some? && !engine.domainOk(url.value))
            && (reply == BadTarget <==>
                  exists i, j :: && LeadsTo(rows, engine, v, i, j)
                                 && if rows[j].linkType.Advanced?
                                    then engine.advancedAllowed && engine.advanced(rows[j].target, v).None?
                                    else engine.simple(rows[j].target, v).None?)
  {
    var reply := Serve(rows, engine, v).0;
    forall i, j | LeadsTo(rows, engine, v, i, j) ensures reply == Expand(engine, rows[j], v) {
      ServedAt(rows, engine, v, i, j);
    }
    if reply.AdvancedDisabled? || reply.DomainRefused? || reply.BadTarget? {
      var l := Opened(rows, engine, v).value;
      OpenedExactly(rows, engine, v, l);
      var i, j :| LeadsTo(rows, engine, v, i, j) && rows[j] == l;
      assert reply == Expand(engine, rows[j], v);
    }
  }

  /** The one id counted, if any: the row asked for, when it is an alias of a row or gives a URL. */
  lemma CountedExactly(rows: Rows, engine: Engine, v: Visit, id: int)
    requires Indexed(rows)
    ensures Serve(rows, engine, v).1 == Some(id) <==>
              exists j :: && LeadsTo(rows, engine, v, id, j)
                          && (rows[id].linkType.Alias? || exists url :: Gives(engine, rows[j], v, url))
  {
    if j :| LeadsTo(rows, engine, v, id, j) {
      ServedAt(rows, engine, v, id, j);
      if !rows[id].linkType.Alias? {
        if url :| Gives(engine, rows[j], v, url) { assert Serve(rows, engine, v).0 == Redirected(url); }
        if Serve(rows, engine, v).0.Redirected? { assert Gives(engine, rows[j], v, Serve(rows, engine, v).0.url); }
      }
    }
    if Serve(rows, engine, v).1 == Some(id) {
      var l := Opened(rows, engine, v).value;
      OpenedExactly(rows, engine, v, l);
      var i, j :| LeadsTo(rows, engine, v, i, j) && rows[j] == l;
      ServedAt(rows, engine, v, i, j);
    }
  }

  /** In a flat table every redirect expands the target at the end of the alias chain, which is
      no alias itself. */
  lemma RedirectsToTheRoot(rows: Rows, engine: Engine, v: Visit)
    requires Indexed(rows) && Flat(rows) && Serve(rows, engine, v).0.Redirected?
    ensures var end := Chase(rows, ToLower(v.name), {});
            && end.Row? && end.id in rows && !rows[end.id].linkType.Alias?
            && Serve(rows, engine, v).0 == Expand(engine, rows[end.id], v)
  {
    FlatMeansOneHop(rows, ToLower(v.name));
  }

  // ---- runs of visits --------------------------------------------------------------------------

  /** A visit that is over, with the tables its first lookup met and those its second would. */
  datatype Served = Served(asked: Rows, later: Rows, v: Visit)

  type Visits = seq<Served>

  /** The id it counted. */
  ghost function HitOf(s: Served, engine: Engine): Option<int> {
    match Find(s.asked, ToLower(s.v.name))
    case None => None
    case Some(l) => ServeFrom(l, s.later, engine, s.v).1
  }

  /** Each lookup decides on the tables that it meets: the first on the link that is counted and on the
      sign-in, the second on the target of an alias. */
  lemma HitOfExactly(s: Served, engine: Engine, id: int)
    requires Indexed(s.asked) && Indexed(s.later)
    ensures HitOf(s, engine) == Some(id) <==>
              && Asked(s.asked, s.v, id) && (Asks(s.asked, engine, id) ==> s.v.canonicalHost && s.v.email.Some?)
              && if s.asked[id].linkType.Alias?
                 then exists j :: j in s.later && s.later[j].nameLower == s.asked[id].aliasTarget
                 else exists url :: Gives(engine, s.asked[id], s.v, url)
  {
    if Asked(s.asked, s.v, id) { AskedRow(s.asked, s.v, id); }
    if HitOf(s, engine).Some? {
      var l := Find(s.asked, ToLower(s.v.name)).value;
      assert Asked(s.asked, s.v, l.id);
      if !l.linkType.Alias? { assert Gives(engine, l, s.v, Expand(engine, l, s.v).url); }
    }
  }

  /** The ids the visits of a run count, in order. */
  ghost function Hits(vs: Visits, engine: Engine): seq<int> {
    if vs == [] then []
    else
      var last := |vs| - 1;
      var hit := HitOf(vs[last], engine);
      Hits(vs[..last], engine) + if hit.Some? then [hit.value] else []
  }

  /** The visit asked for link `id` by the link's own name and was counted. */
  ghost predicate CountedFor(s: Served, engine: Engine, id: int) {
    var row := Find(s.asked, ToLower(s.v.name));
    row.Some? && row.value.id == id && HitOf(s, engine).Some?
  }

  ghost function CountedVisits(vs: Visits, engine: Engine, id: int): set<int> {
    set k | 0 <= k < |vs| && CountedFor(vs[k], engine, id)
  }

  lemma OneMoreVisit(vs: Visits, engine: Engine, id: int)
    requires vs != []
    ensures |CountedVisits(vs, engine, id)| ==
              |CountedVisits(vs[..|vs| - 1], engine, id)| + if CountedFor(vs[|vs| - 1], engine, id) then 1 else 0
  {
    var last := |vs| - 1;
    var earlier := CountedVisits(vs[..last], engine, id);
    forall k | 0 <= k < last ensures vs[..last][k] == vs[k] {}
    assert last !in earlier;
    assert CountedVisits(vs, engine, id) == earlier + if CountedFor(vs[last], engine, id) then {last} else {};
  }

  lemma CountedForHit(s: Served, engine: Engine, id: int)
    ensures CountedFor(s, engine, id) <==> HitOf(s, engine) == Some(id)
  {
  }

  lemma {:induction false} HitsAreVisits(vs: Visits, engine: Engine, id: int)
    ensures multiset(Hits(vs, engine))[id] == |CountedVisits(vs, engine, id)|
    decreases |vs|
  {
    if vs == [] {
      assert CountedVisits(vs, engine, id) == {};
    } else {
      var last := |vs| - 1;
      HitsAreVisits(vs[..last], engine, id);
      OneMoreVisit(vs, engine, id);
      CountedForHit(vs[last], engine, id);
    }
  }
}
