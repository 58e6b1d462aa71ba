/** Export as a dump of all links in name order, import as a loop of upserts, and how far one
    undoes the other. */
module ImportExport {
  import opened Common
  import opened Text
  import opened LinkStore
  import opened AliasGraph
  import opened Validate
  import opened Paging
  import H = Invariants

  datatype ExportLink = ExportLink(name: string, target: string, owner: string, linkType: string,
                                   aliasTarget: string, auth: bool, shares: seq<string>)

  function TypeName(lt: LinkType): string {
    match lt case Advanced => "advanced" case Alias => "alias" case Simple => "simple"
  }

  function TypeFromName(s: string): Option<LinkType> {
    var lower := ToLower(s);
    if lower == "advanced" then Some(Advanced)
    else if lower == "alias" then Some(Alias)
    else if lower == "simple" || lower == "" then Some(Simple)
    else None
  }

  lemma TypeNameReads(lt: LinkType)
    ensures TypeFromName(TypeName(lt)) == Some(lt)
  {
    assert ToLower("advanced") == "advanced" && ToLower("alias") == "alias" && ToLower("simple") == "simple";
  }

  // ---- export ------------------------------------------------------------------------------------

  /** One exported link; GetShares lists the share set in some order. */
  ghost predicate Exports(el: ExportLink, db: Db, l: Link) {
    && el.name == l.name && el.target == l.target && el.owner == l.owner && el.linkType == TypeName(l.linkType)
    && el.aliasTarget == l.aliasTarget && el.auth == l.requireAuth
    && (set e | e in el.shares) == SharesOf(db, l.id)
  }

  const BY_NAME := Order(ByName, Asc, true)

  ghost predicate ExportsFirst(els: seq<ExportLink>, db: Db, s: seq<Link>) {
    |els| <= |s| && forall k :: 0 <= k < |els| ==> Exports(els[k], db, s[k])
  }

  lemma ExportsMore(els: seq<ExportLink>, el: ExportLink, db: Db, s: seq<Link>)
    requires ExportsFirst(els, db, s) && |els| < |s| && Exports(el, db, s[|els|])
    ensures ExportsFirst(els + [el], db, s)
  {
  }

  ghost predicate IsExport(els: seq<ExportLink>, db: Db, s: seq<Link>) {
    && IsOrdering(s, Listed(db.rows, false), BY_NAME)
    && |els| == |s| && ExportsFirst(els, db, s)
  }

  /** An export lists each link once, in the order of the lower-case names. */
  lemma ExportInNameOrder(els: seq<ExportLink>, db: Db, s: seq<Link>, i: nat, j: nat)
    requires Valid(db) && IsExport(els, db, s) && i < j < |els|
    ensures ToLower(els[i].name) != ToLower(els[j].name) && LexLe(ToLower(els[i].name), ToLower(els[j].name))
  {
    assert s[i] in Listed(db.rows, false) && s[j] in Listed(db.rows, false);
    ListedInOrder(s, Listed(db.rows, false), BY_NAME, i, j);
  }

  /** The stream that export writes between its brackets. */
  datatype Token = Item(el: ExportLink) | Comma

  function Separated(els: seq<ExportLink>): seq<Token> {
    if els == [] then []
    else
      var n := |els| - 1;
      Separated(els[..n]) + (if n > 0 then [Comma] else []) + [Item(els[n])]
  }

  /** n items in order, and exactly n - 1 separators, between them. */
  lemma {:induction false} SeparatedShape(els: seq<ExportLink>)
    ensures |Separated(els)| == if els == [] then 0 else 2 * |els| - 1
    ensures forall k :: 0 <= k < |Separated(els)| ==>
              Separated(els)[k] == if k % 2 == 0 then Item(els[k / 2]) else Comma
  {
    if els != [] { SeparatedShape(els[..|els| - 1]); }
  }

  lemma SeparatedMore(els: seq<ExportLink>, el: ExportLink)
    ensures Separated(els + [el]) == Separated(els) + (if els == [] then [] else [Comma]) + [Item(el)]
  {
    assert (els + [el])[..|els|] == els;
  }

  /** A stream that holds every link of the store once, in name order, with its shares. */
  ghost predicate IsDump(out: seq<Token>, db: Db) {
    exists els: seq<ExportLink>, s: seq<Link> :: IsExport(els, db, s) && out == Separated(els)
  }

  const PAGE_SIZE: nat := 500

  lemma TheOrdering(db: Db) returns (s: seq<Link>)
    requires Valid(db)
    ensures IsOrdering(s, Listed(db.rows, false), BY_NAME)
  {
    s := AnOrdering(Listed(db.rows, false), BY_NAME);
  }

  /** The page is what comes in s after the first `offset` links. */
  ghost predicate Continues(page: seq<Link>, s: seq<Link>, offset: nat) {
    offset + |page| <= |s| && forall i :: 0 <= i < |page| ==> page[i] == s[offset + i]
  }

  /** Whatever order the database chose, a page of all links is the same stretch of them. */
  lemma PageContinues(db: Db, s: seq<Link>, page: seq<Link>, limit: nat, offset: nat)
    requires Valid(db) && IsOrdering(s, Listed(db.rows, false), BY_NAME) && offset <= |s|
    requires PageOf(page, Listed(db.rows, false), BY_NAME, limit, offset)
    ensures |page| == Min(limit, |s| - offset) && Continues(page, s, offset)
  {
    PageIsSlice(page, s, Listed(db.rows, false), BY_NAME, limit, offset);
  }

  // ---- import ------------------------------------------------------------------------------------

  datatype Verdict = Created | Updated | Skipped

  datatype Summary = Summary(created: nat, updated: nat, skipped: nat, errors: seq<string>)

  /** An input link that passed validation, normalised. */
  datatype Parsed = Parsed(name: string, target: string, lt: LinkType, to: string, auth: bool)

  function Parse(el: ExportLink): Option<Parsed> {
    var name, target, to := TrimSpace(el.name), TrimSpace(el.target), ToLower(TrimSpace(el.aliasTarget));
    match TypeFromName(el.linkType)
    case None => None
    case Some(lt) =>
      if !ValidName(name) || (lt.Alias? && to == "") || (!lt.Alias? && !ValidTarget(target)) then None
      else Some(Parsed(name, target, lt, to, el.auth))
  }

  lemma ShareOneMore(db: Db, id: int, emails: seq<string>, i: nat)
    requires i < |emails|
    ensures ShareSpec(ShareAll(db, id, emails[..i]), id, emails[i]) == ShareAll(db, id, emails[..i + 1])
  {
    var before, after := set e | e in emails[..i] :: (id, e), set e | e in emails[..i + 1] :: (id, e);
    assert emails[..i + 1] == emails[..i] + [emails[i]];
    assert after == before + {(id, emails[i])};
  }

  function ShareAll(db: Db, id: int, emails: seq<string>): Db {
    db.(shares := db.shares + set e | e in emails :: (id, e))
  }

  /** The limit is enforced on existing links only, and no alias target is resolved. */
  ghost function Upsert(db: Db, maxAliases: int, owner: string, p: Parsed, shares: seq<string>, now: int): (Db, Verdict) {
    match Find(db.rows, ToLower(p.name))
    case Some(l) =>
      var r := if p.lt.Alias? then SetAliasSpec(db, l.id, p.name, p.to, p.auth, maxAliases)
               else UpdateSpec(db, l.id, p.name, p.target, p.lt, p.auth);
      if r.Success? then (r.value, Updated) else (db, Skipped)
    case None =>
      var r := CreateSpec(db, p.name, p.target, owner, p.lt, p.to, p.auth, now);
      if r.Success? then (ShareAll(r.value, db.nextId, shares), Created) else (db, Skipped)
  }

  function OwnerOr(owner: string, importer: string): string { if owner != "" then owner else importer }

  /** One turn of the loop. */
  ghost function ImportOne(db: Db, maxAliases: int, importer: string, el: ExportLink, now: int): (Db, Verdict) {
    match Parse(el)
    case None => (db, Skipped)
    case Some(p) => Upsert(db, maxAliases, OwnerOr(el.owner, importer), p, el.shares, now)
  }

  predicate AddsUp(s: Summary, n: nat) {
    s.created + s.updated + s.skipped == n && |s.errors| == s.skipped
  }

  function Noted(s: Summary, v: Verdict, name: string): (r: Summary)
    ensures forall n: nat :: AddsUp(s, n) ==> AddsUp(r, n + 1)
  {
    match v
    case Created => s.(created := s.created + 1)
    case Updated => s.(updated := s.updated + 1)
    case Skipped => s.(skipped := s.skipped + 1, errors := s.errors + [name])
  }

  /** The loop, for any body. */
  ghost function Loop(one: (Db, ExportLink) -> (Db, Verdict), db: Db, els: seq<ExportLink>): (r: (Db, Summary))
    // every input link is counted once, and every skipped one reported once
    ensures AddsUp(r.1, |els|)
  {
    if els == [] then (db, Summary(0, 0, 0, []))
    else
      var last := els[|els| - 1];
      var (d, s) := Loop(one, db, els[..|els| - 1]);
      var (after, v) := one(d, last);
      (after, Noted(s, v, TrimSpace(last.name)))
  }

  lemma LoopOneMore(one: (Db, ExportLink) -> (Db, Verdict), db: Db, els: seq<ExportLink>, k: nat)
    requires k < |els|
    ensures var (d, s) := Loop(one, db, els[..k]);
            var (after, v) := one(d, els[k]);
            Loop(one, db, els[..k + 1]) == (after, Noted(s, v, TrimSpace(els[k].name)))
  {
    assert els[..k + 1][..k] == els[..k];
  }

  /** Where the loop stands after k links. */
  ghost function Stage(one: (Db, ExportLink) -> (Db, Verdict), db: Db, els: seq<ExportLink>, k: nat): Db
    requires k <= |els|
  {
    Loop(one, db, els[..k]).0
  }

  ghost function Body(maxAliases: int, importer: string, now: int): (Db, ExportLink) -> (Db, Verdict) {
    (d, el) => ImportOne(d, maxAliases, importer, el, now)
  }

  ghost function ImportAll(db: Db, maxAliases: int, importer: string, els: seq<ExportLink>, now: int): (Db, Summary) {
    Loop(Body(maxAliases, importer, now), db, els)
  }

  // ---- export, then import into an empty store -----------------------------------------------------

  const EMPTY := Db(map[], {}, 1)

  /** What a link is to its users: everything but its key, its dates and its counter. */
  datatype Record = Record(name: string, target: string, owner: string, lt: LinkType,
                           aliasTarget: string, auth: bool, shares: set<string>)

  function RecordOf(db: Db, l: Link): Record {
    Record(l.name, l.target, l.owner, l.linkType, l.aliasTarget, l.requireAuth, SharesOf(db, l.id))
  }

  function Records(db: Db): set<Record> { set i | i in db.rows :: RecordOf(db, db.rows[i]) }

  /** What import accepts and stores as it is. */
  predicate Importable(name: string, target: string, owner: string, lt: LinkType, aliasTarget: string, importer: string) {
    && ValidName(name) && Trimmed(target) && Trimmed(aliasTarget) && IsLower(aliasTarget)
    && (if lt.Alias? then aliasTarget != "" else ValidTarget(target))
    && (owner != "" || importer == "")
  }

  predicate LinkImportable(l: Link, importer: string) {
    Importable(l.name, l.target, l.owner, l.linkType, l.aliasTarget, importer)
  }

  lemma ValidNameTrimmed(name: string)
    requires ValidName(name)
    ensures TrimSpace(name) == name
  {
    assert NameChar(name[0]) && NameChar(name[|name| - 1]);
    TrimFixpoint(name);
  }

  function Stored(l: Link): Parsed { Parsed(l.name, l.target, l.linkType, l.aliasTarget, l.requireAuth) }

  /** Fields that import would leave alone arrive as they are. */
  lemma ArrivesUnchanged(el: ExportLink, db: Db, l: Link, importer: string)
    requires Exports(el, db, l) && LinkImportable(l, importer)
    ensures Parse(el) == Some(Stored(l))
  {
    ValidNameTrimmed(l.name);
    TrimFixpoint(l.target);
    TrimFixpoint(l.aliasTarget);
    TypeNameReads(l.linkType);
  }

  /** After k links: rows 1..k, the k-th the image of the k-th exported one. */
  ghost predicate Built(d: Db, db: Db, s: seq<Link>, k: nat)
    requires k <= |s|
  {
    && Valid(d) && d.nextId == k + 1
    && (forall i :: i in d.rows <==> 1 <= i <= k)
    && (forall i :: 1 <= i <= k ==> RecordOf(d, d.rows[i]) == RecordOf(db, s[i - 1]))
  }

  /** A free name gets the next row, and its shares. */
  lemma FreshRow(db: Db, maxAliases: int, owner: string, p: Parsed, shares: seq<string>, now: int)
    requires !Taken(db.rows, ToLower(p.name))
    ensures var row := NewRow(db.nextId, p.name, p.target, owner, p.lt, p.to, p.auth, now);
            Upsert(db, maxAliases, owner, p, shares, now) ==
              (ShareAll(Db(db.rows[db.nextId := row], db.shares, db.nextId + 1), db.nextId, shares), Created)
  {
  }

  lemma BuildOne(d: Db, db: Db, s: seq<Link>, k: nat, shares: seq<string>, maxAliases: int, now: int)
    requires Valid(db) && IsOrdering(s, Listed(db.rows, false), BY_NAME) && k < |s| && Built(d, db, s, k)
    requires (set e | e in shares) == SharesOf(db, s[k].id)
    ensures var (after, v) := Upsert(d, maxAliases, s[k].owner, Stored(s[k]), shares, now);
            v == Created && Built(after, db, s, k + 1)
  {
    var l := s[k];
    NotYetTaken(d, db, s, k);
    FreshRow(d, maxAliases, l.owner, Stored(l), shares, now);
    var row := NewRow(k + 1, l.name, l.target, l.owner, l.linkType, l.aliasTarget, l.requireAuth, now);
    var after := Upsert(d, maxAliases, l.owner, Stored(l), shares, now).0;
    UpsertValid(d, maxAliases, l.owner, Stored(l), shares, now);
    SharesAfter(d, after, k + 1, shares);
    RecordsAfter(d, after, db, s, k, row);
  }

  lemma RecordsAfter(d: Db, after: Db, db: Db, s: seq<Link>, k: nat, row: Link)
    requires k < |s| && Built(d, db, s, k) && row.id == k + 1 && after.rows == d.rows[k + 1 := row]
    requires forall i :: i in d.rows ==> SharesOf(after, i) == SharesOf(d, i)
    requires RecordOf(after, row) == RecordOf(db, s[k])
    ensures forall i :: 1 <= i <= k + 1 ==> i in after.rows && RecordOf(after, after.rows[i]) == RecordOf(db, s[i - 1])
  {
    forall i | 1 <= i <= k + 1 ensures RecordOf(after, after.rows[i]) == RecordOf(db, s[i - 1]) {
      if i <= k { assert after.rows[i] == d.rows[i] && RecordOf(d, d.rows[i]) == RecordOf(db, s[i - 1]); }
    }
  }

  lemma NotYetTaken(d: Db, db: Db, s: seq<Link>, k: nat)
    requires Valid(db) && IsOrdering(s, Listed(db.rows, false), BY_NAME) && k < |s| && Built(d, db, s, k)
    ensures !Taken(d.rows, ToLower(s[k].name))
  {
    forall i | i in d.rows ensures d.rows[i].nameLower != ToLower(s[k].name) {
      assert RecordOf(d, d.rows[i]).name == s[i - 1].name;
      OtherName(db, s, i - 1, k);
    }
  }

  lemma OtherName(db: Db, s: seq<Link>, i: nat, k: nat)
    requires Valid(db) && IsOrdering(s, Listed(db.rows, false), BY_NAME) && i < k < |s|
    ensures ToLower(s[i].name) != ToLower(s[k].name)
  {
    assert s[i] in Listed(db.rows, false) && s[k] in Listed(db.rows, false) && s[i] != s[k];
  }

  /** Shares of the new row are the imported ones; those of older rows do not move. */
  lemma SharesAfter(d: Db, after: Db, id: int, emails: seq<string>)
    requires Valid(d) && id !in d.rows
    requires after.shares == d.shares + set e | e in emails :: (id, e)
    ensures SharesOf(after, id) == set e | e in emails
    ensures forall i :: i in d.rows ==> SharesOf(after, i) == SharesOf(d, i)
  {
    forall e ensures e in SharesOf(after, id) <==> e in emails {
      if e in emails { assert (id, e) in after.shares; }
    }
    forall i | i in d.rows ensures SharesOf(after, i) == SharesOf(d, i) {
      forall e ensures e in SharesOf(after, i) <==> e in SharesOf(d, i) {
        if e in SharesOf(d, i) { assert (i, e) in after.shares; }
      }
    }
  }

  /** One importable link on top of those already imported. */
  lemma BuildNext(d: Db, db: Db, s: seq<Link>, k: nat, el: ExportLink, maxAliases: int, importer: string, now: int)
    requires Valid(db) && IsOrdering(s, Listed(db.rows, false), BY_NAME) && k < |s| && Built(d, db, s, k)
    requires Exports(el, db, s[k]) && LinkImportable(s[k], importer)
    ensures var (after, v) := ImportOne(d, maxAliases, importer, el, now);
            v == Created && Built(after, db, s, k + 1)
  {
    ArrivesUnchanged(el, db, s[k], importer);
    BuildOne(d, db, s, k, el.shares, maxAliases, now);
    assert OwnerOr(el.owner, importer) == s[k].owner;
  }

  /** Turn j of the loop, met with the first j links built, builds the next one. */
  ghost predicate Advances(one: (Db, ExportLink) -> (Db, Verdict), db: Db, s: seq<Link>, el: ExportLink, j: nat)
    requires j < |s|
  {
    forall d :: Built(d, db, s, j) ==> one(d, el).1 == Created && Built(one(d, el).0, db, s, j + 1)
  }

  lemma BodyAdvances(db: Db, s: seq<Link>, el: ExportLink, j: nat, maxAliases: int, importer: string, now: int)
    requires Valid(db) && IsOrdering(s, Listed(db.rows, false), BY_NAME) && j < |s|
    requires Exports(el, db, s[j]) && LinkImportable(s[j], importer)
    ensures Advances(Body(maxAliases, importer, now), db, s, el, j)
  {
    var one := Body(maxAliases, importer, now);
    forall d | Built(d, db, s, j) ensures one(d, el).1 == Created && Built(one(d, el).0, db, s, j + 1) {
      BuildNext(d, db, s, j, el, maxAliases, importer, now);
    }
  }

  lemma Advance(one: (Db, ExportLink) -> (Db, Verdict), db: Db, s: seq<Link>, el: ExportLink, j: nat, d: Db)
    requires j < |s| && Advances(one, db, s, el, j) && Built(d, db, s, j)
    ensures one(d, el).1 == Created && Built(one(d, el).0, db, s, j + 1)
  {
  }

  lemma {:induction false} LoopBuilds(one: (Db, ExportLink) -> (Db, Verdict), db: Db, s: seq<Link>,
                                      els: seq<ExportLink>, k: nat)
    requires k <= |els| == |s| && forall j :: 0 <= j < |s| ==> Advances(one, db, s, els[j], j)
    ensures Built(Loop(one, EMPTY, els[..k]).0, db, s, k) && Loop(one, EMPTY, els[..k]).1 == Summary(k, 0, 0, [])
  {
    if k == 0 {
      assert els[..0] == [];
    } else {
      var last: nat := k - 1;
      LoopBuilds(one, db, s, els, last);
      LoopOneMore(one, EMPTY, els, last);
      Advance(one, db, s, els[last], last, Loop(one, EMPTY, els[..last]).0);
    }
  }

  /** Importing an importable export into an empty store creates its links, one by one. */
  lemma BuildAll(db: Db, s: seq<Link>, els: seq<ExportLink>, maxAliases: int, importer: string, now: int)
    requires Valid(db) && IsExport(els, db, s)
    requires forall l :: l in s ==> LinkImportable(l, importer)
    ensures var r := ImportAll(EMPTY, maxAliases, importer, els, now);
            Built(r.0, db, s, |s|) && r.1 == Summary(|s|, 0, 0, [])
  {
    forall j | 0 <= j < |s| ensures Advances(Body(maxAliases, importer, now), db, s, els[j], j) {
      BodyAdvances(db, s, els[j], j, maxAliases, importer, now);
    }
    LoopBuilds(Body(maxAliases, importer, now), db, s, els, |s|);
    assert els[..|s|] == els;
  }

  /** Import stores nothing it would not accept back. */
  ghost predicate AllImportable(db: Db, importer: string) {
    forall i :: i in db.rows ==> LinkImportable(db.rows[i], importer)
  }

  lemma ParsedImportable(el: ExportLink, p: Parsed, importer: string)
    requires Parse(el) == Some(p)
    ensures Importable(p.name, p.target, OwnerOr(el.owner, importer), p.lt, p.to, importer)
  {
    TrimFixpoint(el.target);
    TrimFixpoint(el.aliasTarget);
    TrimLower(TrimSpace(el.aliasTarget));
    LowerIdempotent(TrimSpace(el.aliasTarget));
  }

  lemma AliasImportable(db: Db, id: int, p: Parsed, maxAliases: int, after: Db, owner: string, importer: string)
    requires AllImportable(db, importer) && Importable(p.name, p.target, owner, p.lt, p.to, importer) && p.lt.Alias?
    requires SetAliasSpec(db, id, p.name, p.to, p.auth, maxAliases) == Success(after)
    ensures AllImportable(after, importer)
  {
    forall i | i in after.rows ensures LinkImportable(after.rows[i], importer) {
      assert LinkImportable(db.rows[i], importer);
      ReparentedImportable(db.rows[i], id, db.rows[id].nameLower, p, owner, importer);
    }
  }

  lemma ReparentedImportable(l: Link, id: int, own: string, p: Parsed, owner: string, importer: string)
    requires LinkImportable(l, importer) && Importable(p.name, p.target, owner, p.lt, p.to, importer) && p.lt.Alias?
    ensures LinkImportable(Reparented(l, id, own, p.name, p.to, p.auth), importer)
  {
  }

  lemma UpdateImportable(db: Db, id: int, p: Parsed, after: Db, owner: string, importer: string)
    requires AllImportable(db, importer) && Importable(p.name, p.target, owner, p.lt, p.to, importer) && !p.lt.Alias?
    requires UpdateSpec(db, id, p.name, p.target, p.lt, p.auth) == Success(after)
    ensures AllImportable(after, importer)
  {
    forall i | i in after.rows ensures LinkImportable(after.rows[i], importer) {
      assert LinkImportable(db.rows[i], importer);
    }
  }

  lemma UpsertImportable(db: Db, maxAliases: int, owner: string, p: Parsed, shares: seq<string>, now: int, importer: string)
    requires Valid(db) && AllImportable(db, importer) && Importable(p.name, p.target, owner, p.lt, p.to, importer)
    ensures AllImportable(Upsert(db, maxAliases, owner, p, shares, now).0, importer)
  {
    var (after, v) := Upsert(db, maxAliases, owner, p, shares, now);
    if v == Updated {
      var id := Find(db.rows, ToLower(p.name)).value.id;
      if p.lt.Alias? { AliasImportable(db, id, p, maxAliases, after, owner, importer); }
      else { UpdateImportable(db, id, p, after, owner, importer); }
    }
  }

  lemma UpsertValid(db: Db, maxAliases: int, owner: string, p: Parsed, shares: seq<string>, now: int)
    requires Valid(db)
    ensures Valid(Upsert(db, maxAliases, owner, p, shares, now).0)
  {
    var (after, v) := Upsert(db, maxAliases, owner, p, shares, now);
    var row := Find(db.rows, ToLower(p.name));
    match v
    case Skipped =>
    case Created =>
      CreateValid(db, p.name, p.target, owner, p.lt, p.to, p.auth, now,
                  CreateSpec(db, p.name, p.target, owner, p.lt, p.to, p.auth, now).value);
    case Updated =>
      if p.lt.Alias? { SetAliasValid(db, row.value.id, p.name, p.to, p.auth, maxAliases, after); }
      else { UpdateValid(db, row.value.id, p.name, p.target, p.lt, p.auth, after); }
  }

  lemma {:induction false} ImportKeepsImportable(maxAliases: int, importer: string, els: seq<ExportLink>, now: int)
    ensures var d := ImportAll(EMPTY, maxAliases, importer, els, now).0; Valid(d) && AllImportable(d, importer)
  {
    if els != [] {
      var init := els[..|els| - 1];
      ImportKeepsImportable(maxAliases, importer, init, now);
      var d := ImportAll(EMPTY, maxAliases, importer, init, now).0;
      var last := els[|els| - 1];
      if Parse(last).Some? {
        var p, owner := Parse(last).value, OwnerOr(last.owner, importer);
        ParsedImportable(last, p, importer);
        UpsertValid(d, maxAliases, owner, p, last.shares, now);
        UpsertImportable(d, maxAliases, owner, p, last.shares, now, importer);
      }
    }
  }

  /** Export then import into an empty store gives the same links and shares back exactly when
      every link is one that import stores as it is; the alias graph may be anything. */
  lemma RoundTripExactly(db: Db, s: seq<Link>, els: seq<ExportLink>, maxAliases: int, importer: string, now: int)
    requires Valid(db) && IsExport(els, db, s)
    ensures Records(ImportAll(EMPTY, maxAliases, importer, els, now).0) == Records(db) <==> AllImportable(db, importer)
  {
    var d := ImportAll(EMPTY, maxAliases, importer, els, now).0;
    if AllImportable(db, importer) {
      forall l | l in s ensures LinkImportable(l, importer) { assert l in Listed(db.rows, false); }
      BuildAll(db, s, els, maxAliases, importer, now);
      SameRecords(d, db, s);
    }
    if Records(d) == Records(db) {
      ImportKeepsImportable(maxAliases, importer, els, now);
      forall i | i in db.rows ensures LinkImportable(db.rows[i], importer) {
        assert RecordOf(db, db.rows[i]) in Records(d);
      }
    }
  }

  lemma SameRecords(d: Db, db: Db, s: seq<Link>)
    requires Valid(db) && IsOrdering(s, Listed(db.rows, false), BY_NAME) && Built(d, db, s, |s|)
    ensures Records(d) == Records(db)
  {
    forall r | r in Records(d) ensures r in Records(db) {
      var i :| i in d.rows && r == RecordOf(d, d.rows[i]);
      assert s[i - 1] in Listed(db.rows, false);
    }
    forall r | r in Records(db) ensures r in Records(d) {
      var i :| i in db.rows && r == RecordOf(db, db.rows[i]);
      assert db.rows[i] in Listed(db.rows, false);
      var k :| 0 <= k < |s| && s[k] == db.rows[i];
      assert r == RecordOf(d, d.rows[k + 1]);
    }
  }

  // ---- import of a store's own export --------------------------------------------------------------

  /** A link whose own export leaves the store as it is: it fills no column of another type; if it is an
      alias, it is refused at the counted limit, or it has no target and no other row would be moved
      from it to its target. */
  ghost predicate Unmoved(db: Db, l: Link, maxAliases: int) {
    if l.linkType.Alias? then
      || |Targeting(db.rows, l.aliasTarget)| + |Targeting(db.rows, l.nameLower)| + 1 > maxAliases
      || (l.target == "" && (l.aliasTarget == l.nameLower || Targeting(db.rows, l.nameLower) <= {l.id}))
    else l.aliasTarget == ""
  }

  /** SetAlias of an alias to where it already points, when it is not refused. */
  lemma SetAliasAgain(db: Db, l: Link, maxAliases: int)
    requires Valid(db) && l.id in db.rows && db.rows[l.id] == l && l.linkType.Alias?
    requires SetAliasSpec(db, l.id, l.name, l.aliasTarget, l.requireAuth, maxAliases).Success?
    ensures SetAliasSpec(db, l.id, l.name, l.aliasTarget, l.requireAuth, maxAliases).value == db <==>
              l.target == "" && (l.aliasTarget == l.nameLower || Targeting(db.rows, l.nameLower) <= {l.id})
  {
    var own, to := l.nameLower, l.aliasTarget;
    var again: Rows := map i | i in db.rows :: Reparented(db.rows[i], l.id, own, l.name, to, l.requireAuth);
    assert again[l.id] == Converted(l, l.name, to, l.requireAuth);
    if l.target == "" && (to == own || Targeting(db.rows, own) <= {l.id}) {
      forall i | i in db.rows ensures again[i] == db.rows[i] {
        if i != l.id { assert i in Targeting(db.rows, own) ==> to == own; }
      }
      assert again == db.rows;
    } else if l.target == "" {
      if i :| i in Targeting(db.rows, own) && i != l.id {
        assert again[i].aliasTarget == to && db.rows[i].aliasTarget == own;
      } else {
        forall i | i in Targeting(db.rows, own) ensures i == l.id {}
      }
    }
  }

  lemma AliasAgain(db: Db, l: Link, owner: string, shares: seq<string>, maxAliases: int, now: int)
    requires Valid(db) && l.id in db.rows && db.rows[l.id] == l && l.linkType.Alias?
    ensures var (after, v) := Upsert(db, maxAliases, owner, Stored(l), shares, now);
            v != Created && (after == db <==> Unmoved(db, l, maxAliases))
  {
    FindRow(db.rows, l.id);
    TakenByOther(db.rows, l.id, l.nameLower);
    if SetAliasSpec(db, l.id, l.name, l.aliasTarget, l.requireAuth, maxAliases).Success? { SetAliasAgain(db, l, maxAliases); }
  }

  lemma UpsertAgain(db: Db, l: Link, owner: string, shares: seq<string>, maxAliases: int, now: int)
    requires Valid(db) && l.id in db.rows && db.rows[l.id] == l
    ensures var (after, v) := Upsert(db, maxAliases, owner, Stored(l), shares, now);
            v != Created && (after == db <==> Unmoved(db, l, maxAliases))
  {
    FindRow(db.rows, l.id);
    if l.linkType.Alias? {
      AliasAgain(db, l, owner, shares, maxAliases, now);
    } else {
      TakenByOther(db.rows, l.id, l.nameLower);
      var row := l.(aliasTarget := "");
      assert db.rows[l.id := row][l.id] == row;
      if l.aliasTarget == "" { assert db.rows[l.id := row] == db.rows; }
    }
  }

  /** One turn on a link's own export, in any store. */
  lemma ReimportOneExactly(db: Db, l: Link, el: ExportLink, maxAliases: int, importer: string, now: int)
    requires Valid(db) && l.id in db.rows && db.rows[l.id] == l && Exports(el, db, l) && LinkImportable(l, importer)
    ensures var (after, v) := ImportOne(db, maxAliases, importer, el, now);
            v != Created && (after == db <==> Unmoved(db, l, maxAliases))
  {
    ArrivesUnchanged(el, db, l, importer);
    UpsertAgain(db, l, OwnerOr(el.owner, importer), el.shares, maxAliases, now);
  }

  lemma {:induction false} LoopUnmoved(one: (Db, ExportLink) -> (Db, Verdict), db: Db, els: seq<ExportLink>)
    requires forall el :: el in els ==> one(db, el).0 == db && one(db, el).1 != Created
    ensures Loop(one, db, els).0 == db && Loop(one, db, els).1.created == 0
  {
    if els != [] { LoopUnmoved(one, db, els[..|els| - 1]); }
  }

  lemma {:induction false} StagesUnmoved(one: (Db, ExportLink) -> (Db, Verdict), db: Db, els: seq<ExportLink>, n: nat)
    requires n <= |els|
    ensures (forall k :: 0 <= k <= n ==> Stage(one, db, els, k) == db) <==> forall k :: 0 <= k < n ==> one(db, els[k]).0 == db
  {
    if n > 0 {
      var last: nat := n - 1;
      StagesUnmoved(one, db, els, last);
      LoopOneMore(one, db, els, last);
      assert Stage(one, db, els, n) == one(Stage(one, db, els, last), els[last]).0;
    } else {
      assert els[..0] == [];
    }
  }

  /** A store is left as it is at every stage of importing its own export exactly when every one of its
      links is unmoved by it. */
  lemma ReimportExactly(db: Db, s: seq<Link>, els: seq<ExportLink>, maxAliases: int, importer: string, now: int)
    requires Valid(db) && IsExport(els, db, s) && AllImportable(db, importer)
    ensures (forall k :: 0 <= k <= |els| ==> Stage(Body(maxAliases, importer, now), db, els, k) == db) <==>
            (forall i :: i in db.rows ==> Unmoved(db, db.rows[i], maxAliases))
  {
    var one := Body(maxAliases, importer, now);
    StagesUnmoved(one, db, els, |els|);
    forall k | 0 <= k < |els| ensures s[k].id in db.rows && (one(db, els[k]).0 == db <==> Unmoved(db, s[k], maxAliases)) {
      assert s[k] in Listed(db.rows, false);
      ReimportOneExactly(db, s[k], els[k], maxAliases, importer, now);
    }
    if forall k :: 0 <= k < |els| ==> one(db, els[k]).0 == db {
      forall i | i in db.rows ensures Unmoved(db, db.rows[i], maxAliases) {
        assert db.rows[i] in Listed(db.rows, false);
        var k :| 0 <= k < |s| && s[k] == db.rows[i];
      }
    }
    if forall i :: i in db.rows ==> Unmoved(db, db.rows[i], maxAliases) {
      forall k | 0 <= k < |els| ensures one(db, els[k]).0 == db {
        assert s[k] in Listed(db.rows, false);
      }
    }
  }

  /** Flat and without stray values is enough: whatever is refused at the limit. */
  lemma TidyIsUnmoved(db: Db, i: int, maxAliases: int)
    requires Valid(db) && Flat(db.rows) && i in db.rows && db.rows[i].nameLower != ""
    requires forall j :: j in db.rows ==> Tidy(db.rows[j])
    ensures Unmoved(db, db.rows[i], maxAliases)
  {
    var l := db.rows[i];
    if l.linkType.Alias? {
      forall j | j in db.rows ensures db.rows[j].aliasTarget != l.nameLower { assert Tidy(db.rows[j]); }
    }
  }

  /** A flat, tidy store takes its own export without changing a row or a share, also where
      aliases are refused at the limit. */
  lemma Reimport(db: Db, s: seq<Link>, els: seq<ExportLink>, maxAliases: int, importer: string, now: int)
    requires Valid(db) && Flat(db.rows) && IsExport(els, db, s) && AllImportable(db, importer)
    requires forall i :: i in db.rows ==> Tidy(db.rows[i])
    ensures var (after, summary) := ImportAll(db, maxAliases, importer, els, now);
            after == db && summary.created == 0
  {
    forall el | el in els
      ensures var (after, v) := Body(maxAliases, importer, now)(db, el); after == db && v != Created
    {
      var k :| 0 <= k < |els| && els[k] == el;
      var l := s[k];
      assert l in Listed(db.rows, false);
      assert l.nameLower != "" by { assert l.name != "" && |l.nameLower| == |l.name|; }
      ReimportOneExactly(db, l, el, maxAliases, importer, now);
      TidyIsUnmoved(db, l.id, maxAliases);
    }
    LoopUnmoved(Body(maxAliases, importer, now), db, els);
  }

  // ---- import and the alias graph ------------------------------------------------------------------

  /** What a turn will do, seen before it. */
  function Foreseen(db: Db, maxAliases: int, el: ExportLink): Verdict {
    match Parse(el)
    case None => Skipped
    case Some(p) =>
      if !Taken(db.rows, ToLower(p.name)) then Created
      else if p.lt.Alias? && |Targeting(db.rows, p.to)| + |Targeting(db.rows, ToLower(p.name))| + 1 > maxAliases then Skipped
      else Updated
  }

  lemma UpsertForeseen(db: Db, maxAliases: int, owner: string, p: Parsed, shares: seq<string>, now: int)
    requires H.Inv(db) && Taken(db.rows, ToLower(p.name))
    ensures Upsert(db, maxAliases, owner, p, shares, now).1 ==
              if p.lt.Alias? && |Targeting(db.rows, p.to)| + |Targeting(db.rows, ToLower(p.name))| + 1 > maxAliases
              then Skipped else Updated
  {
    H.Found(db, ToLower(p.name));
    var l := Find(db.rows, ToLower(p.name)).value;
    TakenByOther(db.rows, l.id, ToLower(p.name));
  }

  /** An accepted link is skipped for the counted limit alone: never for a clash of names. */
  lemma VerdictForeseen(db: Db, maxAliases: int, importer: string, el: ExportLink, now: int)
    requires H.Inv(db)
    ensures ImportOne(db, maxAliases, importer, el, now).1 == Foreseen(db, maxAliases, el)
  {
    if Parse(el).Some? && Taken(db.rows, ToLower(Parse(el).value.name)) {
      UpsertForeseen(db, maxAliases, OwnerOr(el.owner, importer), Parse(el).value, el.shares, now);
    }
  }

  lemma UpsertInv(db: Db, maxAliases: int, owner: string, p: Parsed, shares: seq<string>, now: int)
    requires H.Inv(db) && p.name != ""
    ensures H.Inv(Upsert(db, maxAliases, owner, p, shares, now).0)
  {
    var (after, v) := Upsert(db, maxAliases, owner, p, shares, now);
    UpsertValid(db, maxAliases, owner, p, shares, now);
    if v == Updated && p.lt.Alias? {
      H.Found(db, ToLower(p.name));
      var l := Find(db.rows, ToLower(p.name)).value;
      NamesAfterSetAlias(db, l.id, p.name, p.to, p.auth, maxAliases, after);
    }
  }

  lemma ImportInv(db: Db, maxAliases: int, importer: string, el: ExportLink, now: int)
    requires H.Inv(db)
    ensures H.Inv(ImportOne(db, maxAliases, importer, el, now).0)
  {
    if Parse(el).Some? { UpsertInv(db, maxAliases, OwnerOr(el.owner, importer), Parse(el).value, el.shares, now); }
  }

  /** What import leaves unchecked about an alias: that its target resolves, and, for a new name,
      that no dangling alias references it. */
  ghost predicate AliasFits(db: Db, p: Parsed) {
    && Canonical(db.rows, p.to, ToLower(p.name))
    && (Taken(db.rows, ToLower(p.name)) || AliasesOf(db.rows, ToLower(p.name)) == {})
  }

  lemma CreatedFlat(db: Db, owner: string, p: Parsed, now: int, after: Db)
    requires H.Inv(db) && Flat(db.rows) && p.name != ""
    requires CreateSpec(db, p.name, p.target, owner, p.lt, p.to, p.auth, now) == Success(after)
    ensures Flat(after.rows) <==> (p.lt.Alias? ==> AliasFits(db, p))
  {
    H.CreateFlat(db, p.name, p.target, owner, p.lt, p.to, p.auth, now, after);
  }

  lemma UpdatedFlat(db: Db, maxAliases: int, owner: string, p: Parsed, shares: seq<string>, now: int)
    requires H.Inv(db) && Flat(db.rows) && Upsert(db, maxAliases, owner, p, shares, now).1 == Updated
    ensures Flat(Upsert(db, maxAliases, owner, p, shares, now).0.rows) <==> (p.lt.Alias? ==> AliasFits(db, p))
  {
    var after := Upsert(db, maxAliases, owner, p, shares, now).0;
    H.Found(db, ToLower(p.name));
    var l := Find(db.rows, ToLower(p.name)).value;
    if p.lt.Alias? { H.SetAliasFlat(db, l.id, p.name, p.to, p.auth, maxAliases, after); }
    else { H.UpdateKeeps(db, l.id, p.name, p.target, p.lt, p.auth, after); }
  }

  lemma UpdatedLimit(db: Db, maxAliases: int, owner: string, p: Parsed, shares: seq<string>, now: int)
    requires H.Inv(db) && H.WithinLimit(db.rows, maxAliases) && Upsert(db, maxAliases, owner, p, shares, now).1 == Updated
    ensures H.WithinLimit(Upsert(db, maxAliases, owner, p, shares, now).0.rows, maxAliases)
  {
    var after := Upsert(db, maxAliases, owner, p, shares, now).0;
    H.Found(db, ToLower(p.name));
    var l := Find(db.rows, ToLower(p.name)).value;
    if p.lt.Alias? { H.LimitAfterSetAlias(db, l.id, p.name, p.to, p.auth, maxAliases, after); }
    else { H.LimitShrinks(db.rows, after.rows, maxAliases); }
  }

  /** The condition for a turn to keep the graph flat, before the turn. */
  ghost predicate KeepsFlat(db: Db, maxAliases: int, el: ExportLink) {
    Foreseen(db, maxAliases, el) != Skipped && Parse(el).value.lt.Alias? ==> AliasFits(db, Parse(el).value)
  }

  /** The condition for it to keep the alias limit. */
  ghost predicate KeepsLimit(db: Db, maxAliases: int, el: ExportLink) {
    Foreseen(db, maxAliases, el) == Created && Parse(el).value.lt.Alias? ==>
      |AliasesOf(db.rows, Parse(el).value.to)| < maxAliases
  }

  /** One turn in a flat state, any input: the state stays flat unless the turn is about to carry
      out an alias that does not fit. */
  lemma ImportFlatExactly(db: Db, maxAliases: int, importer: string, el: ExportLink, now: int)
    requires H.Inv(db) && Flat(db.rows)
    ensures Flat(ImportOne(db, maxAliases, importer, el, now).0.rows) <==> KeepsFlat(db, maxAliases, el)
  {
    VerdictForeseen(db, maxAliases, importer, el, now);
    if Parse(el).Some? {
      var p, owner := Parse(el).value, OwnerOr(el.owner, importer);
      match Upsert(db, maxAliases, owner, p, el.shares, now).1
      case Skipped =>
      case Updated => UpdatedFlat(db, maxAliases, owner, p, el.shares, now);
      case Created =>
        CreatedFlat(db, owner, p, now, CreateSpec(db, p.name, p.target, owner, p.lt, p.to, p.auth, now).value);
    }
  }

  /** The alias limit survives a turn unless it is about to create an alias of a full name. */
  lemma ImportLimitExactly(db: Db, maxAliases: int, importer: string, el: ExportLink, now: int)
    requires H.Inv(db) && H.WithinLimit(db.rows, maxAliases)
    ensures H.WithinLimit(ImportOne(db, maxAliases, importer, el, now).0.rows, maxAliases) <==> KeepsLimit(db, maxAliases, el)
  {
    VerdictForeseen(db, maxAliases, importer, el, now);
    if Parse(el).Some? {
      var p, owner := Parse(el).value, OwnerOr(el.owner, importer);
      match Upsert(db, maxAliases, owner, p, el.shares, now).1
      case Skipped =>
      case Updated => UpdatedLimit(db, maxAliases, owner, p, el.shares, now);
      case Created =>
        var created := CreateSpec(db, p.name, p.target, owner, p.lt, p.to, p.auth, now).value;
        H.LimitAfterCreate(db, p.name, p.target, owner, p.lt, p.to, p.auth, now, maxAliases, created);
    }
  }

  // ---- whole documents -----------------------------------------------------------------------------

  /** Every stage is good exactly when every turn meets its condition where it finds the store. */
  lemma {:induction false} StagesExactly(one: (Db, ExportLink) -> (Db, Verdict), inv: Db -> bool, good: Db -> bool,
                                         ok: (Db, ExportLink) -> bool, db: Db, els: seq<ExportLink>, n: nat)
    requires n <= |els| && inv(db) && good(db)
    requires forall d, el :: inv(d) ==> inv(one(d, el).0)
    requires forall d, el :: inv(d) && good(d) ==> (good(one(d, el).0) <==> ok(d, el))
    ensures inv(Stage(one, db, els, n))
    ensures (forall k :: 0 <= k <= n ==> good(Stage(one, db, els, k))) <==>
            (forall k :: 0 <= k < n ==> ok(Stage(one, db, els, k), els[k]))
  {
    if n > 0 {
      var last: nat := n - 1;
      StagesExactly(one, inv, good, ok, db, els, last);
      LoopOneMore(one, db, els, last);
      var d := Stage(one, db, els, last);
      assert Stage(one, db, els, n) == one(d, els[last]).0;
      assert inv(d) && good(d) ==> (good(one(d, els[last]).0) <==> ok(d, els[last]));
    }
  }

  /** Import of a whole document keeps the graph flat at every stage exactly when every alias it
      carries out fits the store it is carried out on. */
  lemma ImportAllFlatExactly(db: Db, maxAliases: int, importer: string, els: seq<ExportLink>, now: int)
    requires H.Inv(db) && Flat(db.rows)
    ensures var one := Body(maxAliases, importer, now);
            && H.Inv(Stage(one, db, els, |els|))
            && Stage(one, db, els, |els|) == ImportAll(db, maxAliases, importer, els, now).0
            && ((forall k :: 0 <= k <= |els| ==> Flat(Stage(one, db, els, k).rows)) <==>
                (forall k :: 0 <= k < |els| ==> KeepsFlat(Stage(one, db, els, k), maxAliases, els[k])))
  {
    var one := Body(maxAliases, importer, now);
    forall d, el | H.Inv(d) ensures H.Inv(one(d, el).0) { ImportInv(d, maxAliases, importer, el, now); }
    forall d, el | H.Inv(d) && Flat(d.rows) ensures Flat(one(d, el).0.rows) <==> KeepsFlat(d, maxAliases, el) {
      ImportFlatExactly(d, maxAliases, importer, el, now);
    }
    StagesExactly(one, (d: Db) => H.Inv(d), (d: Db) => Flat(d.rows),
                  (d: Db, el: ExportLink) => KeepsFlat(d, maxAliases, el), db, els, |els|);
    assert els[..|els|] == els;
  }

  /** And the alias limit exactly when it creates no alias of a name that is full by then. */
  lemma ImportAllLimitExactly(db: Db, maxAliases: int, importer: string, els: seq<ExportLink>, now: int)
    requires H.Inv(db) && H.WithinLimit(db.rows, maxAliases)
    ensures var one := Body(maxAliases, importer, now);
            (forall k :: 0 <= k <= |els| ==> H.WithinLimit(Stage(one, db, els, k).rows, maxAliases)) <==>
            (forall k :: 0 <= k < |els| ==> KeepsLimit(Stage(one, db, els, k), maxAliases, els[k]))
  {
    var one := Body(maxAliases, importer, now);
    forall d, el | H.Inv(d) ensures H.Inv(one(d, el).0) { ImportInv(d, maxAliases, importer, el, now); }
    forall d, el | H.Inv(d) && H.WithinLimit(d.rows, maxAliases)
      ensures H.WithinLimit(one(d, el).0.rows, maxAliases) <==> KeepsLimit(d, maxAliases, el)
    {
      ImportLimitExactly(d, maxAliases, importer, el, now);
    }
    StagesExactly(one, (d: Db) => H.Inv(d), (d: Db) => H.WithinLimit(d.rows, maxAliases),
                  (d: Db, el: ExportLink) => KeepsLimit(d, maxAliases, el), db, els, |els|);
  }

  // ---- documents that break it ---------------------------------------------------------------------

  /** An exported alias without an owner. */
  function AliasLink(name: string, to: string): ExportLink {
    ExportLink(name, "", "", TypeName(Alias), to, false, [])
  }

  lemma AliasLinkParsed(name: string, to: string)
    requires ValidName(name) && ValidName(to) && IsLower(to)
    ensures Parse(AliasLink(name, to)) == Some(Parsed(name, "", Alias, to, false))
  {
    ValidNameTrimmed(name);
    ValidNameTrimmed(to);
    TypeNameReads(Alias);
    TrimFixpoint("");
  }

  lemma NoShares(db: Db, id: int)
    ensures ShareAll(db, id, []) == db
  {
    forall x | x in ShareAll(db, id, []).shares ensures x in db.shares {}
    assert ShareAll(db, id, []).shares == db.shares;
  }

  /** A free name becomes an alias, whatever it points at. */
  lemma FreeNameCreated(db: Db, maxAliases: int, importer: string, el: ExportLink, p: Parsed, now: int)
    requires Parse(el) == Some(p) && el.owner == "" && el.shares == [] && !Taken(db.rows, ToLower(p.name))
    ensures var row := NewRow(db.nextId, p.name, p.target, importer, p.lt, p.to, p.auth, now);
            ImportOne(db, maxAliases, importer, el, now) ==
              (Db(db.rows[db.nextId := row], db.shares, db.nextId + 1), Created)
  {
    FreshRow(db, maxAliases, importer, p, [], now);
    var row := NewRow(db.nextId, p.name, p.target, importer, p.lt, p.to, p.auth, now);
    NoShares(Db(db.rows[db.nextId := row], db.shares, db.nextId + 1), db.nextId);
  }

  lemma LoopOne(one: (Db, ExportLink) -> (Db, Verdict), db: Db, a: ExportLink)
    ensures Loop(one, db, [a]).0 == one(db, a).0
  {
    assert [a][..0] == [];
  }

  lemma LoopTwo(one: (Db, ExportLink) -> (Db, Verdict), db: Db, a: ExportLink, b: ExportLink)
    ensures Loop(one, db, [a, b]).0 == one(one(db, a).0, b).0
  {
    assert [a, b][..1] == [a] && [a, b][..2] == [a, b];
    LoopOneMore(one, db, [a, b], 1);
    LoopOne(one, db, a);
  }

  function AliasRow(id: int, name: string, owner: string, to: string, now: int): Link {
    NewRow(id, name, "", owner, Alias, to, false, now)
  }

  /** The store after two alias links with free names. */
  lemma TwoAliasLinks(maxAliases: int, importer: string, x: string, y: string, toX: string, toY: string, now: int)
    requires ValidName(x) && ValidName(y) && IsLower(x) && IsLower(y) && x != y
    requires ValidName(toX) && ValidName(toY) && IsLower(toX) && IsLower(toY)
    ensures ImportAll(EMPTY, maxAliases, importer, [AliasLink(x, toX), AliasLink(y, toY)], now).0.rows ==
              map[1 := AliasRow(1, x, importer, toX, now), 2 := AliasRow(2, y, importer, toY, now)]
  {
    LoopTwo(Body(maxAliases, importer, now), EMPTY, AliasLink(x, toX), AliasLink(y, toY));
    AliasLinkParsed(x, toX);
    FreeNameCreated(EMPTY, maxAliases, importer, AliasLink(x, toX), Parsed(x, "", Alias, toX, false), now);
    var d := Db(map[1 := AliasRow(1, x, importer, toX, now)], {}, 2);
    assert d == ImportOne(EMPTY, maxAliases, importer, AliasLink(x, toX), now).0;
    AliasLinkParsed(y, toY);
    FreeNameCreated(d, maxAliases, importer, AliasLink(y, toY), Parsed(y, "", Alias, toY, false), now);
  }

  lemma CircleIsNotFlat(rows: Rows, y: string)
    requires 1 in rows && 2 in rows && rows[1].linkType.Alias? && rows[2].linkType.Alias?
    requires rows[1].aliasTarget == y == rows[2].nameLower
    ensures !Flat(rows)
  {
  }

  lemma TwoAliasesAreTwo(rows: Rows, z: string)
    requires rows.Keys == {1, 2} && rows[1].linkType.Alias? && rows[2].linkType.Alias?
    requires rows[1].aliasTarget == z == rows[2].aliasTarget
    ensures !H.WithinLimit(rows, 1)
  {
    assert AliasesOf(rows, z) == {1, 2};
  }

  /** Two links that name each other: after the document neither leads to a link. */
  lemma CircleBreaksFlatness(maxAliases: int, importer: string, x: string, y: string, now: int)
    requires ValidName(x) && ValidName(y) && IsLower(x) && IsLower(y) && x != y
    ensures !Flat(ImportAll(EMPTY, maxAliases, importer, [AliasLink(x, y), AliasLink(y, x)], now).0.rows)
  {
    TwoAliasLinks(maxAliases, importer, x, y, y, x, now);
    var rows := ImportAll(EMPTY, maxAliases, importer, [AliasLink(x, y), AliasLink(y, x)], now).0.rows;
    CircleIsNotFlat(rows, y);
  }

  /** Two aliases of one name where one is permitted. */
  lemma TwoAliasesBreakTheLimit(importer: string, x: string, y: string, z: string, now: int)
    requires ValidName(x) && ValidName(y) && ValidName(z) && IsLower(x) && IsLower(y) && IsLower(z) && x != y
    ensures !H.WithinLimit(ImportAll(EMPTY, 1, importer, [AliasLink(x, z), AliasLink(y, z)], now).0.rows, 1)
  {
    TwoAliasLinks(1, importer, x, y, z, z, now);
    var rows := ImportAll(EMPTY, 1, importer, [AliasLink(x, z), AliasLink(y, z)], now).0.rows;
    TwoAliasesAreTwo(rows, z);
  }
}
