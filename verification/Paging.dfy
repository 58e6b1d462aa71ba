/** ORDER BY, LIMIT and OFFSET. A query may return its rows in any order its ORDER BY allows, and
    a different one each time; pages fit together only because the order leaves no choice. */
module Paging {
  import opened Common
  import opened LinkStore

  datatype SortField = ByName | ByCreated | ByLastUsed | ByUseCount | ByTarget | ByOwner

  datatype SortDir = Asc | Desc

  /** nullsFirst tells the two databases apart: NULL is least in one, greatest in the other. */
  datatype Order = Order(field: SortField, dir: SortDir, nullsFirst: bool)

  datatype Key = Null | Num(n: int) | Text(s: string)

  predicate LexLe(a: string, b: string)
    decreases |a|
  {
    a == "" || (b != "" && (a[0] < b[0] || (a[0] == b[0] && LexLe(a[1..], b[1..]))))
  }

  function KeyOf(l: Link, field: SortField): Key {
    match field
    case ByName => Text(l.nameLower)
    case ByCreated => Num(l.createdAt)
    case ByLastUsed => if l.lastUsedAt.Some? then Num(l.lastUsedAt.value) else Null
    case ByUseCount => Num(l.useCount)
    case ByTarget => Text(l.target)
    case ByOwner => Text(l.owner)
  }

  predicate KeyLe(a: Key, b: Key, nullsFirst: bool) {
    match (a, b)
    case (Null, Null) => true
    case (Null, _) => nullsFirst
    case (_, Null) => !nullsFirst
    case (Num(m), Num(n)) => m <= n
    case (Text(s), Text(t)) => LexLe(s, t)
    case (Num(_), Text(_)) => true
    case (Text(_), Num(_)) => false
  }

  /** May row a be listed before row b? Ties in the sort field go by name_lower, ascending. */
  predicate Precedes(a: Link, b: Link, o: Order) {
    var ka, kb := KeyOf(a, o.field), KeyOf(b, o.field);
    var le := if o.dir.Asc? then KeyLe(ka, kb, o.nullsFirst) else KeyLe(kb, ka, o.nullsFirst);
    var ge := if o.dir.Asc? then KeyLe(kb, ka, o.nullsFirst) else KeyLe(ka, kb, o.nullsFirst);
    le && (ge ==> LexLe(a.nameLower, b.nameLower))
  }

  // ---- the order is total --------------------------------------------------------------------

  lemma {:induction false} LexTotal(a: string, b: string)
    ensures LexLe(a, b) || LexLe(b, a)
    ensures LexLe(a, b) && LexLe(b, a) ==> a == b
    ensures LexLe(a, a)
    decreases |a|
  {
    if a != "" {
      LexTotal(a[1..], if b == "" then "" else b[1..]);
      if b != "" && a[0] == b[0] && a[1..] == b[1..] {
        assert a == [a[0]] + a[1..] && b == [b[0]] + b[1..];
      }
    }
  }

  lemma {:induction false} LexTransitive(a: string, b: string, c: string)
    requires LexLe(a, b) && LexLe(b, c)
    ensures LexLe(a, c)
    decreases |a|
  {
    if a != "" && a[0] == b[0] == c[0] { LexTransitive(a[1..], b[1..], c[1..]); }
  }

  /** Of two texts the one comes first that the other continues, or that has the lesser character
      where they first differ. */
  lemma {:induction false} LexExactly(a: string, b: string)
    ensures LexLe(a, b) <==> a <= b || exists k :: 0 <= k < |a| && k < |b| && a[..k] == b[..k] && a[k] < b[k]
    decreases |a|
  {
    if a != "" && b != "" && a[0] == b[0] {
      LexExactly(a[1..], b[1..]);
      assert a == [a[0]] + a[1..] && b == [b[0]] + b[1..];
      if k :| 0 <= k < |a| && k < |b| && a[..k] == b[..k] && a[k] < b[k] {
        assert a[1..][..k - 1] == a[..k][1..] && b[1..][..k - 1] == b[..k][1..];
        assert a[1..][k - 1] < b[1..][k - 1];
      }
      if k :| 0 <= k < |a| - 1 && k < |b| - 1 && a[1..][..k] == b[1..][..k] && a[1..][k] < b[1..][k] {
        assert a[..k + 1] == [a[0]] + a[1..][..k] && b[..k + 1] == [b[0]] + b[1..][..k];
        assert a[k + 1] < b[k + 1];
      }
    } else if a != "" && b != "" {
      assert a[..0] == b[..0];
      if k :| 0 <= k < |a| && k < |b| && a[..k] == b[..k] && a[k] < b[k] { assert k > 0 ==> a[..k][0] == b[..k][0]; }
    }
  }

  lemma KeyTotal(a: Key, b: Key, nullsFirst: bool)
    ensures KeyLe(a, b, nullsFirst) || KeyLe(b, a, nullsFirst)
    ensures KeyLe(a, b, nullsFirst) && KeyLe(b, a, nullsFirst) ==> a == b
    ensures KeyLe(a, a, nullsFirst)
  {
    if a.Text? && b.Text? { LexTotal(a.s, b.s); }
    if a.Text? { LexTotal(a.s, a.s); }
  }

  lemma KeyTransitive(a: Key, b: Key, c: Key, nullsFirst: bool)
    requires KeyLe(a, b, nullsFirst) && KeyLe(b, c, nullsFirst)
    ensures KeyLe(a, c, nullsFirst)
  {
    if a.Text? && b.Text? && c.Text? { LexTransitive(a.s, b.s, c.s); }
  }

  lemma PrecedesTotal(a: Link, b: Link, o: Order)
    ensures Precedes(a, b, o) || Precedes(b, a, o)
    ensures Precedes(a, b, o) && Precedes(b, a, o) ==> a.nameLower == b.nameLower
    ensures Precedes(a, a, o)
  {
    KeyTotal(KeyOf(a, o.field), KeyOf(b, o.field), o.nullsFirst);
    KeyTotal(KeyOf(a, o.field), KeyOf(a, o.field), o.nullsFirst);
    LexTotal(a.nameLower, b.nameLower);
    LexTotal(a.nameLower, a.nameLower);
  }

  lemma PrecedesTransitive(a: Link, b: Link, c: Link, o: Order)
    requires Precedes(a, b, o) && Precedes(b, c, o)
    ensures Precedes(a, c, o)
  {
    var ka, kb, kc := KeyOf(a, o.field), KeyOf(b, o.field), KeyOf(c, o.field);
    KeyTotal(ka, kb, o.nullsFirst);
    KeyTotal(kb, kc, o.nullsFirst);
    KeyTotal(ka, kc, o.nullsFirst);
    if o.dir.Asc? { KeyTransitive(ka, kb, kc, o.nullsFirst); } else { KeyTransitive(kc, kb, ka, o.nullsFirst); }
    if ka == kb == kc { LexTransitive(a.nameLower, b.nameLower, c.nameLower); }
  }

  // ---- orderings of a set of rows ------------------------------------------------------------

  /** The unique index on name_lower. */
  ghost predicate UniqueNames(q: set<Link>) {
    forall a, b :: a in q && b in q && a.nameLower == b.nameLower ==> a == b
  }

  /** The result of SELECT ... ORDER BY without LIMIT: every row once, in an allowed order. */
  ghost predicate IsOrdering(s: seq<Link>, q: set<Link>, o: Order) {
    && (forall l :: l in s <==> l in q)
    && (forall i, j :: 0 <= i < j < |s| ==> s[i] != s[j])
    && (forall i, j :: 0 <= i < j < |s| ==> Precedes(s[i], s[j], o))
  }

  /** What the listing shows: the chosen column never decreases (or, descending, never increases)
      from one row to a later one, and rows that agree in it come in the order of their names. */
  lemma ListedInOrder(s: seq<Link>, q: set<Link>, o: Order, i: nat, j: nat)
    requires IsOrdering(s, q, o) && i < j < |s|
    ensures var (a, b) := if o.dir.Asc? then (s[i], s[j]) else (s[j], s[i]);
            match o.field
            case ByName => LexLe(a.nameLower, b.nameLower)
            case ByCreated => a.createdAt <= b.createdAt
            case ByLastUsed => a.lastUsedAt.Some? && b.lastUsedAt.Some? ==> a.lastUsedAt.value <= b.lastUsedAt.value
            case ByUseCount => a.useCount <= b.useCount
            case ByTarget => LexLe(a.target, b.target)
            case ByOwner => LexLe(a.owner, b.owner)
    ensures o.field.ByLastUsed? ==>
              var (a, b) := if o.dir.Asc? then (s[i], s[j]) else (s[j], s[i]);
              && (a.lastUsedAt.None? && b.lastUsedAt.Some? ==> o.nullsFirst)
              && (a.lastUsedAt.Some? && b.lastUsedAt.None? ==> !o.nullsFirst)
    ensures KeyOf(s[i], o.field) == KeyOf(s[j], o.field) ==> LexLe(s[i].nameLower, s[j].nameLower)
  {
    assert Precedes(s[i], s[j], o);
    KeyTotal(KeyOf(s[i], o.field), KeyOf(s[i], o.field), o.nullsFirst);
  }

  lemma Rest(s: seq<Link>, q: set<Link>, o: Order)
    requires IsOrdering(s, q, o) && s != []
    ensures s[0] in q && IsOrdering(s[1..], q - {s[0]}, o)
    ensures forall l :: l in q ==> Precedes(s[0], l, o)
  {
    var r := s[1..];
    forall l ensures l in r <==> l in q - {s[0]} {
      if l in r { var i :| 0 <= i < |r| && r[i] == l; assert s[i + 1] == l; }
      if l in q - {s[0]} { var i :| 0 <= i < |s| && s[i] == l; assert r[i - 1] == l; }
    }
    forall l | l in q ensures Precedes(s[0], l, o) {
      PrecedesTotal(l, l, o);
      var i :| 0 <= i < |s| && s[i] == l;
    }
  }

  lemma OrderingEmpty(s: seq<Link>, q: set<Link>, o: Order)
    requires IsOrdering(s, q, o)
    ensures s == [] <==> q == {}
  {
    if s != [] { assert s[0] in s; }
  }

  /** ORDER BY leaves no choice: name_lower, unique, breaks every tie. */
  lemma {:induction false} OrderingUnique(s: seq<Link>, t: seq<Link>, q: set<Link>, o: Order)
    requires UniqueNames(q) && IsOrdering(s, q, o) && IsOrdering(t, q, o)
    ensures s == t
    decreases |s|
  {
    OrderingEmpty(s, q, o);
    OrderingEmpty(t, q, o);
    if s != [] {
      Rest(s, q, o);
      Rest(t, q, o);
      PrecedesTotal(s[0], t[0], o);
      OrderingUnique(s[1..], t[1..], q - {s[0]}, o);
      assert s == [s[0]] + s[1..] && t == [t[0]] + t[1..];
    }
  }

  ghost predicate IsFirst(m: Link, q: set<Link>, o: Order) { m in q && forall l :: l in q ==> Precedes(m, l, o) }

  lemma {:induction false} FirstExists(q: set<Link>, o: Order)
    requires q != {}
    ensures exists m :: IsFirst(m, q, o)
    decreases |q|
  {
    var x :| x in q;
    PrecedesTotal(x, x, o);
    if q == {x} {
      assert IsFirst(x, q, o);
    } else {
      FirstExists(q - {x}, o);
      var m :| IsFirst(m, q - {x}, o);
      FirstOfMore(q, x, m, o);
    }
  }

  lemma FirstOfMore(q: set<Link>, x: Link, m: Link, o: Order)
    requires x in q && IsFirst(m, q - {x}, o)
    ensures exists f :: IsFirst(f, q, o)
  {
    PrecedesTotal(x, m, o);
    if Precedes(m, x, o) {
      assert IsFirst(m, q, o);
    } else {
      forall l | l in q ensures Precedes(x, l, o) {
        if l == x { PrecedesTotal(x, x, o); } else { PrecedesTransitive(x, m, l, o); }
      }
      assert IsFirst(x, q, o);
    }
  }

  lemma OneMoreLast(s: seq<Link>, done: set<Link>, l: Link, o: Order)
    requires IsOrdering(s, done, o) && l !in done && forall x :: x in done ==> Precedes(x, l, o)
    ensures IsOrdering(s + [l], done + {l}, o)
  {
    var t := s + [l];
    forall x ensures x in t <==> x in done + {l} {
      assert x in t <==> x in s || x == l;
    }
  }

  /** Every set of rows can be listed in every order. */
  lemma {:induction false} AnOrdering(q: set<Link>, o: Order) returns (s: seq<Link>)
    ensures IsOrdering(s, q, o)
    decreases |q|
  {
    s := [];
    if q != {} {
      FirstExists(q, o);
      var m :| IsFirst(m, q, o);
      var t := AnOrdering(q - {m}, o);
      s := [m] + t;
    }
  }

  // ---- pages -----------------------------------------------------------------------------------

  function Min(a: int, b: int): int { if a <= b then a else b }

  function Slice(s: seq<Link>, limit: nat, offset: nat): seq<Link> {
    s[Min(offset, |s|)..Min(offset + limit, |s|)]
  }

  /** One call of a listing query. */
  ghost predicate PageOf(page: seq<Link>, q: set<Link>, o: Order, limit: nat, offset: nat) {
    exists s :: IsOrdering(s, q, o) && page == Slice(s, limit, offset)
  }

  function Flatten(pages: seq<seq<Link>>): seq<Link> {
    if pages == [] then [] else Flatten(pages[..|pages| - 1]) + pages[|pages| - 1]
  }

  function TotalPages(total: nat, pageSize: int): nat {
    if pageSize <= 0 then 1
    else
      var pages := total / pageSize + if total % pageSize != 0 then 1 else 0;
      if pages == 0 then 1 else pages
  }

  function PageRange(page: int, pageSize: int, pageLen: int, total: int): (int, int) {
    if total == 0 then (0, 0) else ((page - 1) * pageSize + 1, (page - 1) * pageSize + 1 + pageLen - 1)
  }

  lemma OrderingSize(s: seq<Link>, q: set<Link>, o: Order)
    requires IsOrdering(s, q, o)
    ensures |s| == |q|
    decreases |s|
  {
    OrderingEmpty(s, q, o);
    if s != [] {
      Rest(s, q, o);
      OrderingSize(s[1..], q - {s[0]}, o);
    }
  }

  lemma NextSlice(s: seq<Link>, size: nat, offset: nat)
    ensures s[..Min(offset, |s|)] + Slice(s, size, offset) == s[..Min(offset + size, |s|)]
  {
  }

  lemma Distribute(n: nat, size: nat)
    ensures (n + 1) * size == n * size + size
  {
  }

  /** Page p, cut out of s. */
  ghost predicate IsPage(pages: seq<seq<Link>>, s: seq<Link>, size: nat, p: nat)
    requires p < |pages|
  {
    pages[p] == Slice(s, size, p * size)
  }

  lemma {:induction false} FlattenSlices(pages: seq<seq<Link>>, s: seq<Link>, size: nat)
    requires forall p :: 0 <= p < |pages| ==> IsPage(pages, s, size, p)
    ensures Flatten(pages) == s[..Min(|pages| * size, |s|)]
  {
    if pages != [] {
      var n := |pages| - 1;
      var init := pages[..n];
      forall p | 0 <= p < n ensures IsPage(init, s, size, p) { assert IsPage(pages, s, size, p); }
      FlattenSlices(init, s, size);
      assert IsPage(pages, s, size, n);
      NextSlice(s, size, n * size);
      Distribute(n, size);
    }
  }

  lemma PagesCover(total: nat, size: nat)
    requires size > 0
    ensures TotalPages(total, size) * size >= total
    ensures total > 0 ==> (TotalPages(total, size) - 1) * size < total
  {
    var d := total / size;
    assert total == d * size + total % size;
    if total % size != 0 { assert (d + 1) * size == d * size + size; }
    else if d > 0 { assert (d - 1) * size == d * size - size; }
  }

  /** Whatever order the database chose for a page query, it cut the one ordering there is. */
  lemma PageIsSlice(page: seq<Link>, s: seq<Link>, q: set<Link>, o: Order, limit: nat, offset: nat)
    requires UniqueNames(q) && IsOrdering(s, q, o) && PageOf(page, q, o, limit, offset)
    ensures page == Slice(s, limit, offset)
  {
    var t :| IsOrdering(t, q, o) && page == Slice(t, limit, offset);
    OrderingUnique(s, t, q, o);
  }

  /** Stable paging: however each page query orders its rows, the pages put together list every
      qualifying row exactly once, in order. */
  lemma StablePaging(pages: seq<seq<Link>>, q: set<Link>, o: Order, size: nat)
    requires UniqueNames(q) && size > 0 && |pages| == TotalPages(|q|, size)
    requires forall p :: 0 <= p < |pages| ==> PageOf(pages[p], q, o, size, p * size)
    ensures IsOrdering(Flatten(pages), q, o)
  {
    var s := AnOrdering(q, o);
    forall p | 0 <= p < |pages| ensures IsPage(pages, s, size, p) {
      PageIsSlice(pages[p], s, q, o, size, p * size);
    }
    FlattenSlices(pages, s, size);
    OrderingSize(s, q, o);
    PagesCover(|q|, size);
    assert s[..|s|] == s;
  }

  /** The ranges shown on the pages cut 1..total into consecutive intervals: item k is shown on
      exactly one page, at the position its range says. */
  lemma RangesPartition(s: seq<Link>, size: nat, k: nat, p: nat)
    requires size > 0 && 1 <= k <= |s| && 1 <= p <= TotalPages(|s|, size)
    ensures var page := Slice(s, size, (p - 1) * size);
            var (start, end) := PageRange(p, size, |page|, |s|);
            && (start <= k <= end <==> p == (k - 1) / size + 1)
            && (start <= k <= end ==> page[k - start] == s[k - 1])
    ensures (k - 1) / size + 1 <= TotalPages(|s|, size)
  {
    PageOfItem(|s|, size, k);
    Quotient(k - 1, size, p - 1);
    PageStarts(|s|, size, p);
    ShownOn(s, size, k, p, (p - 1) * size, (k - 1) / size);
  }

  lemma ShownOn(s: seq<Link>, size: nat, k: nat, p: nat, offset: nat, d: nat)
    requires 1 <= k <= |s| && offset == (p - 1) * size < |s| && (offset <= k - 1 < offset + size <==> d == p - 1)
    ensures var page := Slice(s, size, offset);
            var (start, end) := PageRange(p, size, |page|, |s|);
            && (start <= k <= end <==> p == d + 1)
            && (start <= k <= end ==> page[k - start] == s[k - 1])
  {
    ItemOnPage(s, size, k, offset);
  }

  /** There is always a page to show, and no more than needed. */
  lemma PagesExactly(total: nat, size: int)
    ensures TotalPages(total, size) >= 1
    ensures size > 0 ==> TotalPages(total, size) * size >= total
    ensures size > 0 && total > 0 ==> (TotalPages(total, size) - 1) * size < total
    ensures size <= 0 || total == 0 ==> TotalPages(total, size) == 1
  {
    if size > 0 { PagesCover(total, size); }
  }

  /** Of nothing, nothing is shown. */
  lemma NothingShown(p: int, size: int, shown: int, k: int)
    requires k >= 1
    ensures var (start, end) := PageRange(p, size, shown, 0); !(start <= k <= end)
  {
  }

  /** Every page that there is begins within the listing. */
  lemma PageStarts(total: nat, size: nat, p: nat)
    requires size > 0 && total > 0 && 1 <= p <= TotalPages(total, size)
    ensures (p - 1) * size < total
  {
    PagesCover(total, size);
    Monotone(p - 1, TotalPages(total, size) - 1, size);
  }

  lemma ItemOnPage(s: seq<Link>, size: nat, k: nat, offset: nat)
    requires offset < |s| && 1 <= k <= |s|
    ensures var page := Slice(s, size, offset);
            && (offset + 1 <= k <= offset + |page| <==> offset <= k - 1 < offset + size)
            && (offset + 1 <= k <= offset + |page| ==> page[k - 1 - offset] == s[k - 1])
  {
  }

  lemma Monotone(a: nat, b: nat, size: nat)
    requires a <= b
    ensures a * size <= b * size
  {
  }

  lemma PageOfItem(total: nat, size: nat, k: nat)
    requires size > 0 && 1 <= k <= total
    ensures (k - 1) / size + 1 <= TotalPages(total, size)
  {
    PagesCover(total, size);
    var d, pages := (k - 1) / size, TotalPages(total, size);
    assert d * size <= k - 1;
    if d >= pages { Monotone(pages, d, size); }
  }

  lemma Quotient(n: nat, size: nat, p: nat)
    requires size > 0
    ensures p * size <= n < p * size + size <==> n / size == p
  {
    var d := n / size;
    assert d * size <= n < d * size + size;
    if p < d { Monotone(p + 1, d, size); }
    if p > d { Monotone(d + 1, p, size); }
  }

  // ---- which rows a listing is about -----------------------------------------------------------

  function Listed(rows: Rows, publicOnly: bool): set<Link> {
    set i | i in rows && (publicOnly ==> !rows[i].requireAuth) :: rows[i]
  }

  lemma ListedExactly(rows: Rows, publicOnly: bool, l: Link)
    requires Indexed(rows)
    ensures l in Listed(rows, publicOnly) <==> l.id in rows && rows[l.id] == l && !(publicOnly && l.requireAuth)
  {
    if l.id in rows && rows[l.id] == l && !(publicOnly && l.requireAuth) {
      assert rows[l.id] in Listed(rows, publicOnly);
    }
  }

  function OwnedBy(db: Db, owner: string): set<Link> { set i | i in db.rows && db.rows[i].owner == owner :: db.rows[i] }

  /** The second branch of the UNION: shared with one of the identifiers and not owned. */
  function SharedWith(db: Db, owner: string, identifiers: seq<string>): set<Link> {
    set s | s in db.shares && s.0 in db.rows && s.1 in identifiers && db.rows[s.0].owner != owner :: db.rows[s.0]
  }

  /** ListOwnedOrSharedWith lists exactly the rows owned or shared. */
  lemma OwnedOrShared(db: Db, owner: string, identifiers: seq<string>, l: Link)
    requires Valid(db)
    ensures l in OwnedBy(db, owner) + SharedWith(db, owner, identifiers) <==>
              && l.id in db.rows && db.rows[l.id] == l
              && (l.owner == owner || exists e :: e in identifiers && (l.id, e) in db.shares)
  {
    if l.id in db.rows && db.rows[l.id] == l && l.owner != owner {
      if e :| e in identifiers && (l.id, e) in db.shares {
        var s := (l.id, e);
        assert s in db.shares && db.rows[s.0] in SharedWith(db, owner, identifiers);
      }
    }
    if l in SharedWith(db, owner, identifiers) {
      var s :| s in db.shares && s.0 in db.rows && s.1 in identifiers && db.rows[s.0].owner != owner && db.rows[s.0] == l;
      assert db.rows[s.0].id == s.0;
    }
  }

  /** Its total counts each of them once: the branches of the UNION do not overlap, and the
      owner-only query used without identifiers agrees. */
  lemma OwnedOrSharedCount(db: Db, owner: string, identifiers: seq<string>)
    requires Valid(db)
    ensures |OwnedBy(db, owner) + SharedWith(db, owner, identifiers)|
         == |OwnedBy(db, owner)| + |SharedWith(db, owner, identifiers)|
    ensures identifiers == [] ==> SharedWith(db, owner, identifiers) == {}
    ensures UniqueNames(OwnedBy(db, owner) + SharedWith(db, owner, identifiers))
  {
    assert OwnedBy(db, owner) * SharedWith(db, owner, identifiers) == {};
    forall l | l in OwnedBy(db, owner) + SharedWith(db, owner, identifiers)
      ensures l.id in db.rows && db.rows[l.id] == l
    {
      OwnedOrShared(db, owner, identifiers, l);
    }
  }
}
