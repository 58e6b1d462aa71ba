/** What one turn of an import writes, and what its summary counts, said of the document and of the
    tables before and after. */
module ImportWrites {
  import opened Common
  import opened Text
  import opened LinkStore
  import opened AliasGraph
  import opened Validate
  import opened Effects
  import opened ImportExport
  import H = Invariants

  predicate Means(typeName: string, lt: LinkType) {
    match lt
    case Advanced => ToLower(typeName) == "advanced"
    case Alias => ToLower(typeName) == "alias"
    case Simple => typeName == "" || ToLower(typeName) == "simple"
  }

  /** The link is one that import accepts, as one of type lt. */
  predicate Takes(el: ExportLink, lt: LinkType) {
    && Means(el.linkType, lt) && ValidName(TrimSpace(el.name))
    && if lt.Alias? then TrimSpace(el.aliasTarget) != "" else ValidTarget(TrimSpace(el.target))
  }

  /** Its new target would have more aliases, by the count of SetAlias, than permitted. */
  ghost predicate Crowded(db: Db, maxAliases: int, el: ExportLink, lt: LinkType) {
    && lt.Alias?
    && |Targeting(db.rows, ToLower(TrimSpace(el.aliasTarget)))| + |Targeting(db.rows, ToLower(TrimSpace(el.name)))|
         >= maxAliases
  }

  /** Row id after the update: the imported name, type, flag and target of that type, the column that
      the type does not use empty; owner, dates, counter and shares as they were. */
  ghost predicate Replaced(db: Db, after: Db, id: int, el: ExportLink, lt: LinkType) {
    if lt.Alias? then Aliased(db, after, id, TrimSpace(el.name), ToLower(TrimSpace(el.aliasTarget)), el.auth)
    else Retyped(db, after, id, TrimSpace(el.name), TrimSpace(el.target), lt, el.auth)
  }

  /** A free name gets a row with everything the document says, and its shares; a taken one has its
      row replaced, unless that is crowded. */
  ghost predicate Carried(db: Db, maxAliases: int, importer: string, el: ExportLink, lt: LinkType, now: int,
                          after: Db, v: Verdict)
  {
    if !Taken(db.rows, ToLower(TrimSpace(el.name))) then
      && v == Created
      && Added(db, after, TrimSpace(el.name), TrimSpace(el.target), if el.owner != "" then el.owner else importer,
               lt, ToLower(TrimSpace(el.aliasTarget)), el.auth, now, el.shares)
    else if Crowded(db, maxAliases, el, lt) then v == Skipped && after == db
    else
      && v == Updated
      && exists id :: id in db.rows && db.rows[id].nameLower == ToLower(TrimSpace(el.name)) && Replaced(db, after, id, el, lt)
  }

  ghost predicate Turn(db: Db, maxAliases: int, importer: string, el: ExportLink, now: int, after: Db, v: Verdict) {
    if exists lt :: Takes(el, lt) then exists lt :: Takes(el, lt) && Carried(db, maxAliases, importer, el, lt, now, after, v)
    else v == Skipped && after == db
  }

  lemma MeansExactly(s: string, lt: LinkType)
    ensures Means(s, lt) <==> TypeFromName(s) == Some(lt)
  {
    assert ToLower(s) == "" <==> s == "";
  }

  /** An export always spells the type out, and import reads it as that type and no other. */
  lemma TypesSpelledOut(lt: LinkType, other: LinkType)
    ensures TypeName(lt) != "" && (Means(TypeName(lt), other) <==> other == lt)
  {
    TypeNameReads(lt);
    MeansExactly(TypeName(lt), other);
  }

  lemma TakesExactly(el: ExportLink, lt: LinkType)
    ensures Takes(el, lt) <==>
              Parse(el) == Some(Parsed(TrimSpace(el.name), TrimSpace(el.target), lt, ToLower(TrimSpace(el.aliasTarget)),
                                       el.auth))
    ensures Parse(el).Some? ==> Takes(el, Parse(el).value.lt)
  {
    MeansExactly(el.linkType, lt);
    if Parse(el).Some? { MeansExactly(el.linkType, Parse(el).value.lt); }
  }

  lemma NewTurn(db: Db, maxAliases: int, importer: string, el: ExportLink, p: Parsed, now: int, after: Db)
    requires H.Inv(db) && Parse(el) == Some(p) && !Taken(db.rows, ToLower(p.name))
    ensures ImportOne(db, maxAliases, importer, el, now) == (after, Created) <==>
              Added(db, after, p.name, p.target, if el.owner != "" then el.owner else importer, p.lt, p.to, p.auth, now,
                    el.shares)
    ensures ImportOne(db, maxAliases, importer, el, now).1 == Created
  {
    FreshRow(db, maxAliases, OwnerOr(el.owner, importer), p, el.shares, now);
    CreateSharedExactly(db, after, p.name, p.target, OwnerOr(el.owner, importer), p.lt, p.to, p.auth, now, el.shares);
  }

  lemma OldTurn(db: Db, maxAliases: int, importer: string, el: ExportLink, p: Parsed, l: Link, now: int, after: Db)
    requires H.Inv(db) && Parse(el) == Some(p) && Find(db.rows, ToLower(p.name)) == Some(l)
    requires !(p.lt.Alias? && |Targeting(db.rows, p.to)| + |Targeting(db.rows, l.nameLower)| >= maxAliases)
    ensures ImportOne(db, maxAliases, importer, el, now) == (after, Updated) <==>
              if p.lt.Alias? then Aliased(db, after, l.id, p.name, p.to, p.auth)
              else Retyped(db, after, l.id, p.name, p.target, p.lt, p.auth)
    ensures ImportOne(db, maxAliases, importer, el, now).1 == Updated
  {
    H.Found(db, ToLower(p.name));
    if p.lt.Alias? { SetAliasExactly(db, after, l.id, p.name, p.to, p.auth, maxAliases); }
    else { UpdateExactly(db, after, l.id, p.name, p.target, p.lt, p.auth); }
    TakenByOther(db.rows, l.id, ToLower(p.name));
  }

  lemma CarriedExactly(db: Db, maxAliases: int, importer: string, el: ExportLink, lt: LinkType, now: int, after: Db, v: Verdict)
    requires H.Inv(db) && Takes(el, lt)
    ensures ImportOne(db, maxAliases, importer, el, now) == (after, v) <==>
              Carried(db, maxAliases, importer, el, lt, now, after, v)
  {
    TakesExactly(el, lt);
    var p := Parse(el).value;
    if !Taken(db.rows, ToLower(p.name)) {
      NewTurn(db, maxAliases, importer, el, p, now, after);
    } else {
      var l := Find(db.rows, ToLower(p.name)).value;
      H.Found(db, ToLower(p.name));
      forall id | id in db.rows && db.rows[id].nameLower == ToLower(p.name) ensures id == l.id { FindRow(db.rows, id); }
      if Crowded(db, maxAliases, el, lt) {
        VerdictForeseen(db, maxAliases, importer, el, now);
      } else {
        OldTurn(db, maxAliases, importer, el, p, l, now, after);
      }
    }
  }

  /** One turn of the loop does exactly what Turn says, on every link of every document. */
  lemma TurnExactly(db: Db, maxAliases: int, importer: string, el: ExportLink, now: int, after: Db, v: Verdict)
    requires H.Inv(db)
    ensures ImportOne(db, maxAliases, importer, el, now) == (after, v) <==> Turn(db, maxAliases, importer, el, now, after, v)
  {
    if Parse(el).Some? {
      var lt := Parse(el).value.lt;
      TakesExactly(el, lt);
      forall x | Takes(el, x) ensures x == lt { TakesExactly(el, x); }
      CarriedExactly(db, maxAliases, importer, el, lt, now, after, v);
    } else {
      forall x ensures !Takes(el, x) { TakesExactly(el, x); }
    }
  }

  // ---- the summary ---------------------------------------------------------------------------------

  /** How the turns of a document end. */
  ghost function Verdicts(one: (Db, ExportLink) -> (Db, Verdict), db: Db, els: seq<ExportLink>): (vs: seq<Verdict>)
    ensures |vs| == |els|
  {
    if els == [] then []
    else
      var n := |els| - 1;
      Verdicts(one, db, els[..n]) + [one(Loop(one, db, els[..n]).0, els[n]).1]
  }

  lemma {:induction false} VerdictsAt(one: (Db, ExportLink) -> (Db, Verdict), db: Db, els: seq<ExportLink>, k: nat)
    requires k < |els|
    ensures Verdicts(one, db, els)[k] == one(Stage(one, db, els, k), els[k]).1
    decreases |els|
  {
    var n := |els| - 1;
    if k < n {
      VerdictsAt(one, db, els[..n], k);
      assert els[..n][..k] == els[..k];
    }
  }

  /** How many of the first n end so. */
  function Tally(vs: seq<Verdict>, n: nat, v: Verdict): nat
    requires n <= |vs|
  {
    if n == 0 then 0 else Tally(vs, n - 1, v) + if vs[n - 1] == v then 1 else 0
  }

  lemma {:induction false} TallyStays(vs: seq<Verdict>, last: Verdict, n: nat, v: Verdict)
    requires n <= |vs|
    ensures Tally(vs + [last], n, v) == Tally(vs, n, v)
  {
    if n > 0 { TallyStays(vs, last, n - 1, v); }
  }

  lemma {:induction false} TallyGrows(vs: seq<Verdict>, k: nat, n: nat, v: Verdict)
    requires k <= n <= |vs|
    ensures Tally(vs, k, v) <= Tally(vs, n, v)
  {
    if k < n { TallyGrows(vs, k, n - 1, v); }
  }

  function NamesOf(els: seq<ExportLink>): (names: seq<string>)
    ensures |names| == |els|
  {
    if els == [] then [] else NamesOf(els[..|els| - 1]) + [TrimSpace(els[|els| - 1].name)]
  }

  lemma {:induction false} NamesAt(els: seq<ExportLink>, k: nat)
    requires k < |els|
    ensures NamesOf(els)[k] == TrimSpace(els[k].name)
  {
    if k < |els| - 1 { NamesAt(els[..|els| - 1], k); }
  }

  /** Link k, if it was skipped, is named by the error of its number among the skipped. */
  ghost predicate NamedBy(vs: seq<Verdict>, names: seq<string>, errors: seq<string>, k: nat)
    requires k < |vs| == |names|
  {
    vs[k] == Skipped ==> Tally(vs, k, Skipped) < |errors| && errors[Tally(vs, k, Skipped)] == names[k]
  }

  ghost predicate Sums(vs: seq<Verdict>, names: seq<string>, s: Summary)
    requires |vs| == |names|
  {
    && s.created == Tally(vs, |vs|, Created) && s.updated == Tally(vs, |vs|, Updated)
    && s.skipped == Tally(vs, |vs|, Skipped) == |s.errors|
    && forall k: nat :: k < |vs| ==> NamedBy(vs, names, s.errors, k)
  }

  lemma NamedMore(vs: seq<Verdict>, names: seq<string>, s: Summary, v: Verdict, name: string, k: nat)
    requires |vs| == |names| && Sums(vs, names, s) && k <= |vs|
    ensures NamedBy(vs + [v], names + [name], Noted(s, v, name).errors, k)
  {
    TallyStays(vs, v, k, Skipped);
    TallyGrows(vs, k, |vs|, Skipped);
    if k < |vs| { assert NamedBy(vs, names, s.errors, k); }
  }

  lemma NotedSums(vs: seq<Verdict>, names: seq<string>, s: Summary, v: Verdict, name: string)
    requires |vs| == |names| && Sums(vs, names, s)
    ensures Sums(vs + [v], names + [name], Noted(s, v, name))
  {
    TallyStays(vs, v, |vs|, Created);
    TallyStays(vs, v, |vs|, Updated);
    TallyStays(vs, v, |vs|, Skipped);
    forall k: nat | k < |vs + [v]| ensures NamedBy(vs + [v], names + [name], Noted(s, v, name).errors, k) {
      NamedMore(vs, names, s, v, name, k);
    }
  }

  lemma LoopNotes(one: (Db, ExportLink) -> (Db, Verdict), db: Db, els: seq<ExportLink>)
    requires els != []
    ensures var n := |els| - 1;
            var v := one(Loop(one, db, els[..n]).0, els[n]).1;
            && Loop(one, db, els).1 == Noted(Loop(one, db, els[..n]).1, v, TrimSpace(els[n].name))
            && Verdicts(one, db, els) == Verdicts(one, db, els[..n]) + [v]
            && NamesOf(els) == NamesOf(els[..n]) + [TrimSpace(els[n].name)]
  {
  }

  /** The summary after the whole of a document. */
  ghost predicate Summed(one: (Db, ExportLink) -> (Db, Verdict), db: Db, els: seq<ExportLink>) {
    Sums(Verdicts(one, db, els), NamesOf(els), Loop(one, db, els).1)
  }

  lemma NothingSummed(one: (Db, ExportLink) -> (Db, Verdict), db: Db)
    ensures Summed(one, db, [])
  {
  }

  lemma SummedMore(one: (Db, ExportLink) -> (Db, Verdict), db: Db, els: seq<ExportLink>)
    requires els != [] && Summed(one, db, els[..|els| - 1])
    ensures Summed(one, db, els)
  {
    var n := |els| - 1;
    LoopNotes(one, db, els);
    NotedSums(Verdicts(one, db, els[..n]), NamesOf(els[..n]), Loop(one, db, els[..n]).1,
              one(Loop(one, db, els[..n]).0, els[n]).1, TrimSpace(els[n].name));
  }

  lemma {:induction false} LoopSums(one: (Db, ExportLink) -> (Db, Verdict), db: Db, els: seq<ExportLink>)
    ensures Summed(one, db, els)
    decreases |els|
  {
    if els == [] {
      NothingSummed(one, db);
    } else {
      LoopSums(one, db, els[..|els| - 1]);
      SummedMore(one, db, els);
    }
  }

  /** For every document each count of the summary is the number of turns that ended so, and the k-th
      error names the k-th link skipped. */
  lemma SummaryExactly(db: Db, maxAliases: int, importer: string, els: seq<ExportLink>, now: int)
    ensures var one := Body(maxAliases, importer, now);
            Sums(Verdicts(one, db, els), NamesOf(els), ImportAll(db, maxAliases, importer, els, now).1)
  {
    LoopSums(Body(maxAliases, importer, now), db, els);
  }
}
