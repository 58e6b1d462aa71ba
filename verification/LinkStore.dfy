/** The links and link_shares tables, and what each repository operation does to them.

    The class that performs the operations is in module LinkRepo; the modules that reason about
    runs use the specifications given here. */
module LinkStore {
  import opened Common
  import opened Text

  datatype LinkType = Simple | Advanced | Alias

  datatype Link = Link(
    id: int, name: string, nameLower: string, target: string, owner: string,
    linkType: LinkType, aliasTarget: string, requireAuth: bool,
    createdAt: int, lastUsedAt: Option<int>, useCount: nat)

  /** No target on aliases, no alias target on others. */
  predicate Tidy(l: Link) { if l.linkType.Alias? then l.target == "" else l.aliasTarget == "" }

  type Rows = map<int, Link>

  /** The two tables, and the next key the links table will hand out. */
  datatype Db = Db(rows: Rows, shares: set<(int, string)>, nextId: int)

  datatype DbError = NotFound | AliasLimitExceeded | UniqueViolation

  /** Primary key, name_lower = lower(name), unique index on name_lower. */
  ghost predicate Indexed(rows: Rows) {
    && (forall i :: i in rows ==> rows[i].id == i && rows[i].nameLower == ToLower(rows[i].name))
    && (forall i, j :: i in rows && j in rows && rows[i].nameLower == rows[j].nameLower ==> i == j)
  }

  ghost predicate Valid(db: Db) {
    && Indexed(db.rows)
    && (forall i :: i in db.rows ==> i < db.nextId)
    && (forall s :: s in db.shares ==> s.0 in db.rows)
  }

  predicate Taken(rows: Rows, n: string) { exists i :: i in rows && rows[i].nameLower == n }

  /** The row with a given lower-cased name. */
  ghost function Find(rows: Rows, n: string): Option<Link> {
    if Taken(rows, n) then
      var i :| i in rows && rows[i].nameLower == n; Some(rows[i])
    else None
  }

  lemma FindRow(rows: Rows, i: int)
    requires Indexed(rows) && i in rows
    ensures Find(rows, rows[i].nameLower) == Some(rows[i])
  {
  }

  lemma TakenByOther(rows: Rows, id: int, n: string)
    ensures Taken(rows - {id}, n) <==> exists j :: j in rows && j != id && rows[j].nameLower == n
  {
    if j :| j in rows && j != id && rows[j].nameLower == n {
      assert (rows - {id})[j].nameLower == n;
    }
  }

  function Targeting(rows: Rows, n: string): set<int> { set i | i in rows && rows[i].aliasTarget == n }

  function SharesOf(db: Db, id: int): set<string> { set s | s in db.shares && s.0 == id :: s.1 }

  // ---- specifications -----------------------------------------------------------

  function NewRow(id: int, name: string, target: string, owner: string, lt: LinkType,
                  aliasTarget: string, auth: bool, now: int): Link
  {
    Link(id, name, ToLower(name), target, owner, lt, aliasTarget, auth, now, None, 0)
  }

  function CreateSpec(db: Db, name: string, target: string, owner: string, lt: LinkType,
                      aliasTarget: string, auth: bool, now: int): Result<Db, DbError>
  {
    if Taken(db.rows, ToLower(name)) then Failure(UniqueViolation)
    else
      var row := NewRow(db.nextId, name, target, owner, lt, aliasTarget, auth, now);
      Success(db.(rows := db.rows[db.nextId := row], nextId := db.nextId + 1))
  }

  function UpdateSpec(db: Db, id: int, name: string, target: string, lt: LinkType, auth: bool): Result<Db, DbError> {
    if id !in db.rows then Failure(NotFound)
    else if Taken(db.rows - {id}, ToLower(name)) then Failure(UniqueViolation)
    else
      var row := db.rows[id].(name := name, nameLower := ToLower(name), target := target,
                              linkType := lt, aliasTarget := "", requireAuth := auth);
      Success(db.(rows := db.rows[id := row]))
  }

  /** The first of the two UPDATE statements, on one row. */
  function Retargeted(l: Link, own: string, to: string): Link {
    if l.aliasTarget == own then l.(aliasTarget := to) else l
  }

  lemma NothingToRetarget(rows: Rows, own: string, to: string)
    requires |Targeting(rows, own)| == 0
    ensures rows == map i | i in rows :: Retargeted(rows[i], own, to)
  {
    assert forall i :: i in rows ==> i !in Targeting(rows, own);
  }

  /** The second one, on the row itself. */
  function Converted(l: Link, name: string, to: string, auth: bool): Link {
    l.(name := name, nameLower := ToLower(name), target := "", linkType := Alias,
       aliasTarget := to, requireAuth := auth)
  }

  /** What one row becomes when link `id`, called `own`, turns into an alias of `to`. */
  function Reparented(l: Link, id: int, own: string, name: string, to: string, auth: bool): Link {
    if l.id == id then Converted(l, name, to, auth) else Retargeted(l, own, to)
  }

  /** The two statements together do what Reparented says, and clash on a name when it does. */
  lemma TwoUpdates(rows: Rows, tx: Rows, id: int, own: string, name: string, to: string, auth: bool)
    requires Indexed(rows) && id in rows
    requires tx == map i | i in rows :: Retargeted(rows[i], own, to)
    ensures tx[id := Converted(tx[id], name, to, auth)]
         == map i | i in rows :: Reparented(rows[i], id, own, name, to, auth)
    ensures Taken(rows - {id}, ToLower(name)) <==> exists j :: j in tx && j != id && tx[j].nameLower == ToLower(name)
  {
    forall j | j in rows ensures j in tx && tx[j].nameLower == rows[j].nameLower {}
    TakenByOther(rows, id, ToLower(name));
    var a := tx[id := Converted(tx[id], name, to, auth)];
    var b := map i | i in rows :: Reparented(rows[i], id, own, name, to, auth);
    assert a.Keys == b.Keys;
    forall i | i in rows ensures a[i] == b[i] {}
  }

  function SetAliasSpec(db: Db, id: int, name: string, to: string, auth: bool, maxAliases: int): Result<Db, DbError> {
    if id !in db.rows then Failure(NotFound)
    else
      var own := db.rows[id].nameLower;
      if |Targeting(db.rows, to)| + |Targeting(db.rows, own)| + 1 > maxAliases then Failure(AliasLimitExceeded)
      else if Taken(db.rows - {id}, ToLower(name)) then Failure(UniqueViolation)
      else Success(db.(rows := map i | i in db.rows :: Reparented(db.rows[i], id, own, name, to, auth)))
  }

  function DeleteSpec(db: Db, id: int): Result<Db, DbError> {
    if id !in db.rows then Failure(NotFound)
    else Success(db.(rows := db.rows - {id}, shares := set s | s in db.shares && s.0 != id))
  }

  function TransferSpec(db: Db, id: int, owner: string): Result<Db, DbError> {
    if id !in db.rows then Failure(NotFound)
    else Success(db.(rows := db.rows[id := db.rows[id].(owner := owner)]))
  }

  function ReassignSpec(db: Db, fromOwner: string, toOwner: string): Db {
    db.(rows := map i | i in db.rows ::
                  if db.rows[i].owner == fromOwner then db.rows[i].(owner := toOwner) else db.rows[i])
  }

  function ShareSpec(db: Db, id: int, email: string): Db { db.(shares := db.shares + {(id, email)}) }

  /** The counter's write: no row, no effect. */
  function AddUsesSpec(db: Db, id: int, delta: nat, now: int): Db {
    if id !in db.rows then db
    else
      var l := db.rows[id];
      db.(rows := db.rows[id := l.(useCount := l.useCount + delta, lastUsedAt := Some(now))])
  }

  // ---- validity -------------------------------------------------------------------------------

  lemma CreateValid(db: Db, name: string, target: string, owner: string, lt: LinkType,
                    aliasTarget: string, auth: bool, now: int, after: Db)
    requires Valid(db) && CreateSpec(db, name, target, owner, lt, aliasTarget, auth, now) == Success(after)
    ensures Valid(after)
  {
  }

  lemma UpdateValid(db: Db, id: int, name: string, target: string, lt: LinkType, auth: bool, after: Db)
    requires Valid(db) && UpdateSpec(db, id, name, target, lt, auth) == Success(after)
    ensures Valid(after)
  {
    TakenByOther(db.rows, id, ToLower(name));
  }

  lemma DeleteValid(db: Db, id: int, after: Db)
    requires Valid(db) && DeleteSpec(db, id) == Success(after)
    ensures Valid(after)
  {
  }

  lemma TransferValid(db: Db, id: int, owner: string, after: Db)
    requires Valid(db) && TransferSpec(db, id, owner) == Success(after)
    ensures Valid(after)
  {
  }

  lemma ReassignValid(db: Db, fromOwner: string, toOwner: string)
    requires Valid(db)
    ensures Valid(ReassignSpec(db, fromOwner, toOwner))
  {
  }

  lemma AddUsesValid(db: Db, id: int, delta: nat, now: int)
    requires Valid(db)
    ensures Valid(AddUsesSpec(db, id, delta, now))
  {
  }

  lemma SetAliasValid(db: Db, id: int, name: string, to: string, auth: bool, maxAliases: int, after: Db)
    requires Valid(db) && SetAliasSpec(db, id, name, to, auth, maxAliases) == Success(after)
    ensures Valid(after)
  {
    forall i | i in after.rows
      ensures i in db.rows && after.rows[i].id == i && after.rows[i].nameLower == ToLower(after.rows[i].name)
      ensures after.rows[i].nameLower == if i == id then ToLower(name) else db.rows[i].nameLower
    {}
    TakenByOther(db.rows, id, ToLower(name));
  }
}
