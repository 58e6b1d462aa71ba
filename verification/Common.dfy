module Common {
  datatype Option<+T> = None | Some(value: T)

  datatype Result<+T, +E> = Success(value: T) | Failure(error: E)

  function Or<T>(o: Option<T>, default: T): T { if o.Some? then o.value else default }

  /** A tally by link id; an id it does not hold counts 0. */
  type Counts = map<int, nat>

  function At(m: Counts, id: int): nat { if id in m then m[id] else 0 }

  function Bump(m: Counts, id: int, d: nat): Counts { m[id := At(m, id) + d] }

  lemma SomeKey(m: Counts)
    ensures m == map[] || exists id :: id in m
  {
    if forall id :: id !in m { assert m == map[]; }
  }

  lemma Smaller(a: set<int>, b: set<int>)
    requires a <= b
    ensures |a| <= |b| && (|a| == |b| <==> a == b)
  {
    assert b == a + (b - a);
    if |b - a| == 0 { assert b - a == {}; }
  }
}
