/** What each repository operation leaves in the two tables, said of the tables before and after:
    every field of every row, every share, the next key. */
module Effects {
  import opened Common
  import opened Text
  import opened LinkStore

  /** One more row, with what is given; shares for it only. */
  ghost predicate Added(a: Db, b: Db, name: string, target: string, owner: string, lt: LinkType, to: string,
                           auth: bool, now: int, emails: seq<string>)
  {
    && b.nextId == a.nextId + 1 && b.rows.Keys == a.rows.Keys + {a.nextId}
    && (forall i :: i in a.rows ==> b.rows[i] == a.rows[i])
    && (forall s :: s in b.shares <==> s in a.shares || (s.0 == a.nextId && s.1 in emails))
    && var r := b.rows[a.nextId];
       && r.id == a.nextId && r.name == name && r.nameLower == ToLower(name)
       && r.target == target && r.owner == owner && r.linkType == lt && r.aliasTarget == to && r.requireAuth == auth
       && r.createdAt == now && r.lastUsedAt == None && r.useCount == 0
  }

  ghost predicate SameKeys(a: Db, b: Db) {
    b.nextId == a.nextId && b.shares == a.shares && b.rows.Keys == a.rows.Keys
  }

  /** What an edit leaves alone: key, lower-case name, owner, dates and counter. */
  ghost predicate SameHistory(l: Link, r: Link) {
    && r.id == l.id && r.nameLower == l.nameLower && r.owner == l.owner
    && r.createdAt == l.createdAt && r.lastUsedAt == l.lastUsedAt && r.useCount == l.useCount
  }

  ghost predicate Others(a: Db, b: Db, id: int) { forall i :: i in a.rows && i in b.rows && i != id ==> b.rows[i] == a.rows[i] }

  /** Row id with a target of its own. */
  ghost predicate Retyped(a: Db, b: Db, id: int, name: string, target: string, lt: LinkType, auth: bool) {
    && SameKeys(a, b) && id in a.rows && Others(a, b, id)
    && var r := b.rows[id];
       && SameHistory(a.rows[id], r) && r.name == name && r.linkType == lt && r.requireAuth == auth
       && r.target == target && r.aliasTarget == ""
  }

  /** Row l after a change that moves aliases of `own` to `to` and nothing else. */
  ghost predicate Moved(l: Link, r: Link, own: string, to: string) {
    && SameHistory(l, r) && r.name == l.name && r.linkType == l.linkType && r.requireAuth == l.requireAuth
    && r.target == l.target && r.aliasTarget == if l.aliasTarget == own then to else l.aliasTarget
  }

  /** Row id as an alias, the rows that named it following. */
  ghost predicate Aliased(a: Db, b: Db, id: int, name: string, to: string, auth: bool) {
    && SameKeys(a, b) && id in a.rows
    && (forall i :: i in a.rows && i != id ==> Moved(a.rows[i], b.rows[i], a.rows[id].nameLower, to))
    && var r := b.rows[id];
       && SameHistory(a.rows[id], r) && r.name == name && r.linkType == Alias && r.requireAuth == auth
       && r.target == "" && r.aliasTarget == to
  }

  /** Row id and its shares, and nothing else. */
  ghost predicate Deleted(a: Db, b: Db, id: int) {
    && b.nextId == a.nextId && id in a.rows && b.rows.Keys == a.rows.Keys - {id} && Others(a, b, id)
    && forall s :: s in b.shares <==> s in a.shares && s.0 != id
  }

  /** The same link with another owner. */
  ghost predicate Handed(l: Link, r: Link, owner: string) {
    && r.owner == owner && r.id == l.id && r.name == l.name && r.nameLower == l.nameLower && r.target == l.target
    && r.linkType == l.linkType && r.aliasTarget == l.aliasTarget && r.requireAuth == l.requireAuth
    && r.createdAt == l.createdAt && r.lastUsedAt == l.lastUsedAt && r.useCount == l.useCount
  }

  ghost predicate Transferred(a: Db, b: Db, id: int, owner: string) {
    SameKeys(a, b) && id in a.rows && Others(a, b, id) && Handed(a.rows[id], b.rows[id], owner)
  }

  ghost predicate Reassigned(a: Db, b: Db, fromOwner: string, toOwner: string) {
    && SameKeys(a, b)
    && forall i :: i in a.rows ==>
         Handed(a.rows[i], b.rows[i], if a.rows[i].owner == fromOwner then toOwner else a.rows[i].owner)
  }

  /** A link used `delta` times more, last at `now`. */
  ghost predicate Used(l: Link, r: Link, delta: nat, now: int) {
    && r.useCount == l.useCount + delta && r.lastUsedAt == Some(now)
    && r.id == l.id && r.name == l.name && r.nameLower == l.nameLower && r.target == l.target && r.owner == l.owner
    && r.linkType == l.linkType && r.aliasTarget == l.aliasTarget && r.requireAuth == l.requireAuth
    && r.createdAt == l.createdAt
  }

  ghost predicate Recorded(a: Db, b: Db, id: int, delta: nat, now: int) {
    SameKeys(a, b) && Others(a, b, id) && (id in a.rows ==> Used(a.rows[id], b.rows[id], delta, now))
  }

  // ---- each operation is the one that does this ---------------------------------------------------

  lemma SameDb(b: Db, c: Db)
    requires b.nextId == c.nextId && b.rows.Keys == c.rows.Keys && forall i :: i in b.rows ==> b.rows[i] == c.rows[i]
    requires forall s :: s in b.shares <==> s in c.shares
    ensures b == c
  {
    forall i | i in b.rows ensures i in c.rows && b.rows[i] == c.rows[i] { assert i in b.rows.Keys; }
    forall i | i in c.rows ensures i in b.rows { assert i in c.rows.Keys; }
    assert b.rows == c.rows;
    forall s | s in b.shares ensures s in c.shares {}
    forall s | s in c.shares ensures s in b.shares {}
    assert b.shares == c.shares;
  }

  /** A new row, and shares given to it at once. */
  lemma CreateSharedExactly(a: Db, b: Db, name: string, target: string, owner: string, lt: LinkType, to: string,
                            auth: bool, now: int, emails: seq<string>)
    requires Valid(a) && !Taken(a.rows, ToLower(name))
    ensures var c := CreateSpec(a, name, target, owner, lt, to, auth, now).value;
            b == c.(shares := c.shares + set e | e in emails :: (a.nextId, e)) <==>
            Added(a, b, name, target, owner, lt, to, auth, now, emails)
  {
    var c := CreateSpec(a, name, target, owner, lt, to, auth, now).value;
    var d := c.(shares := c.shares + set e | e in emails :: (a.nextId, e));
    forall s ensures s in d.shares <==> s in a.shares || (s.0 == a.nextId && s.1 in emails) {
      if s.0 == a.nextId && s.1 in emails { assert s == (a.nextId, s.1); }
    }
    assert Added(a, d, name, target, owner, lt, to, auth, now, emails);
    if Added(a, b, name, target, owner, lt, to, auth, now, emails) {
      forall i | i in b.rows ensures b.rows[i] == d.rows[i] { if i == a.nextId { assert b.rows[i] == d.rows[i]; } }
      SameDb(b, d);
    }
  }

  lemma CreateExactly(a: Db, b: Db, name: string, target: string, owner: string, lt: LinkType, to: string,
                      auth: bool, now: int)
    requires Valid(a) && !Taken(a.rows, ToLower(name))
    ensures CreateSpec(a, name, target, owner, lt, to, auth, now) == Success(b) <==>
              Added(a, b, name, target, owner, lt, to, auth, now, [])
  {
    var c := CreateSpec(a, name, target, owner, lt, to, auth, now).value;
    var emails: seq<string> := [];
    var none := set e | e in emails :: (a.nextId, e);
    assert none == {} && c.shares + none == c.shares;
    CreateSharedExactly(a, b, name, target, owner, lt, to, auth, now, emails);
  }

  lemma UpdateExactly(a: Db, b: Db, id: int, name: string, target: string, lt: LinkType, auth: bool)
    requires Valid(a) && id in a.rows && ToLower(name) == a.rows[id].nameLower
    ensures UpdateSpec(a, id, name, target, lt, auth) == Success(b) <==> Retyped(a, b, id, name, target, lt, auth)
  {
    TakenByOther(a.rows, id, ToLower(name));
    var c := UpdateSpec(a, id, name, target, lt, auth).value;
    assert Retyped(a, c, id, name, target, lt, auth);
    if Retyped(a, b, id, name, target, lt, auth) {
      forall i | i in b.rows ensures b.rows[i] == c.rows[i] {}
      SameDb(b, c);
    }
  }

  lemma SetAliasDoes(a: Db, id: int, name: string, to: string, auth: bool, maxAliases: int, b: Db)
    requires Valid(a) && id in a.rows && ToLower(name) == a.rows[id].nameLower
    requires SetAliasSpec(a, id, name, to, auth, maxAliases) == Success(b)
    ensures Aliased(a, b, id, name, to, auth)
  {
    forall i | i in a.rows ensures b.rows[i] == Reparented(a.rows[i], id, a.rows[id].nameLower, name, to, auth) {}
  }

  /** The tables after are all told. */
  lemma AliasedOnce(a: Db, b: Db, c: Db, id: int, name: string, to: string, auth: bool)
    requires Aliased(a, b, id, name, to, auth) && Aliased(a, c, id, name, to, auth)
    ensures b == c
  {
    forall i | i in b.rows ensures b.rows[i] == c.rows[i] {
      if i != id {
        assert Moved(a.rows[i], b.rows[i], a.rows[id].nameLower, to) && Moved(a.rows[i], c.rows[i], a.rows[id].nameLower, to);
      }
    }
    SameDb(b, c);
  }

  lemma SetAliasExactly(a: Db, b: Db, id: int, name: string, to: string, auth: bool, maxAliases: int)
    requires Valid(a) && id in a.rows && ToLower(name) == a.rows[id].nameLower
    requires |Targeting(a.rows, to)| + |Targeting(a.rows, a.rows[id].nameLower)| < maxAliases
    ensures SetAliasSpec(a, id, name, to, auth, maxAliases) == Success(b) <==> Aliased(a, b, id, name, to, auth)
  {
    TakenByOther(a.rows, id, ToLower(name));
    var c := SetAliasSpec(a, id, name, to, auth, maxAliases).value;
    SetAliasDoes(a, id, name, to, auth, maxAliases, c);
    if Aliased(a, b, id, name, to, auth) { AliasedOnce(a, b, c, id, name, to, auth); }
  }

  lemma DeleteExactly(a: Db, b: Db, id: int)
    requires id in a.rows
    ensures DeleteSpec(a, id) == Success(b) <==> Deleted(a, b, id)
  {
    var c := DeleteSpec(a, id).value;
    assert Deleted(a, c, id);
    if Deleted(a, b, id) { SameDb(b, c); }
  }

  lemma TransferExactly(a: Db, b: Db, id: int, owner: string)
    requires id in a.rows
    ensures TransferSpec(a, id, owner) == Success(b) <==> Transferred(a, b, id, owner)
  {
    var c := TransferSpec(a, id, owner).value;
    assert Transferred(a, c, id, owner);
    if Transferred(a, b, id, owner) {
      forall i | i in b.rows ensures b.rows[i] == c.rows[i] {}
      SameDb(b, c);
    }
  }

  lemma ReassignExactly(a: Db, b: Db, fromOwner: string, toOwner: string)
    ensures ReassignSpec(a, fromOwner, toOwner) == b <==> Reassigned(a, b, fromOwner, toOwner)
  {
    var c := ReassignSpec(a, fromOwner, toOwner);
    assert Reassigned(a, c, fromOwner, toOwner);
    if Reassigned(a, b, fromOwner, toOwner) {
      forall i | i in b.rows ensures b.rows[i] == c.rows[i] {}
      SameDb(b, c);
    }
  }

  lemma AddUsesExactly(a: Db, b: Db, id: int, delta: nat, now: int)
    ensures AddUsesSpec(a, id, delta, now) == b <==> Recorded(a, b, id, delta, now)
  {
    var c := AddUsesSpec(a, id, delta, now);
    assert Recorded(a, c, id, delta, now);
    if Recorded(a, b, id, delta, now) {
      forall i | i in b.rows ensures b.rows[i] == c.rows[i] {}
      SameDb(b, c);
    }
  }

  /** Shares of a row: who had it and who is added. */
  lemma ShareExactly(a: Db, b: Db, id: int, email: string)
    ensures ShareSpec(a, id, email) == b <==>
              b.rows == a.rows && b.nextId == a.nextId && forall s :: s in b.shares <==> s in a.shares || s == (id, email)
  {
    var c := ShareSpec(a, id, email);
    if b.rows == a.rows && b.nextId == a.nextId && forall s :: s in b.shares <==> s in a.shares || s == (id, email) {
      SameDb(b, c);
    }
  }
}
