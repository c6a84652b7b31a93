/**
 * The destination queries: listing all destinations ordered by priority
 * (highest first) and then by name, and looking one up by id. The listing is
 * a stable sort, modelled as insertion sort on the repository's order.
 */
module DestinationQueries {
  import opened Wrappers
  import opened Text
  import opened Entities
  import opened Store

  /** `a` may come before `b`: higher priority, or equal priority and name not greater. */
  predicate KeyLeq(a: Destination, b: Destination) {
    Rank(a.priority) > Rank(b.priority)
    || (a.priority == b.priority && LexLeq(a.name, b.name))
  }

  /** Equal sort keys: the sort must keep such records in their original order. */
  predicate SameKey(a: Destination, b: Destination) {
    a.priority == b.priority && a.name == b.name
  }

  predicate Ordered(s: seq<Destination>) {
    forall i, j :: 0 <= i < j < |s| ==> KeyLeq(s[i], s[j])
  }

  lemma KeyLeqReflexive(a: Destination)
    ensures KeyLeq(a, a)
  {
    LexLeqReflexive(a.name);
  }

  lemma KeyLeqTotal(a: Destination, b: Destination)
    ensures KeyLeq(a, b) || KeyLeq(b, a)
  {
    LexLeqTotal(a.name, b.name);
  }

  lemma KeyLeqTransitive(a: Destination, b: Destination, c: Destination)
    requires KeyLeq(a, b) && KeyLeq(b, c)
    ensures KeyLeq(a, c)
  {
    if a.priority == b.priority == c.priority {
      LexLeqTransitive(a.name, b.name, c.name);
    }
  }

  /** The records of `s` whose sort key equals that of `k`, in their order in `s`. */
  function WithKeyOf(s: seq<Destination>, k: Destination): (r: seq<Destination>)
    ensures |r| <= |s|
  {
    if |s| == 0 then []
    else (if SameKey(s[0], k) then [s[0]] else []) + WithKeyOf(s[1..], k)
  }

  lemma WithKeyOfCons(y: Destination, s: seq<Destination>, k: Destination)
    ensures WithKeyOf([y] + s, k) == (if SameKey(y, k) then [y] else []) + WithKeyOf(s, k)
  {
    assert ([y] + s)[1..] == s;
  }

  /** Putting a record in front of an ordered sequence it may precede keeps it ordered. */
  lemma ConsOrdered(y: Destination, s: seq<Destination>)
    requires Ordered(s)
    requires forall j :: 0 <= j < |s| ==> KeyLeq(y, s[j])
    ensures Ordered([y] + s)
  {
    var r := [y] + s;
    forall i, j | 0 <= i < j < |r|
      ensures KeyLeq(r[i], r[j])
    {
      if i > 0 {
        assert r[i] == s[i - 1] && r[j] == s[j - 1];
      }
    }
  }

  /** When `x` may not precede the head of `s`, the head may precede `x` and all of the tail. */
  lemma HeadPrecedesRest(x: Destination, s: seq<Destination>, rest: seq<Destination>)
    requires Ordered(s) && |s| > 0 && !KeyLeq(x, s[0])
    requires multiset(rest) == multiset(s[1..]) + multiset{x}
    ensures forall j :: 0 <= j < |rest| ==> KeyLeq(s[0], rest[j])
  {
    KeyLeqTotal(x, s[0]);
    forall j | 0 <= j < |rest|
      ensures KeyLeq(s[0], rest[j])
    {
      assert rest[j] in multiset(rest);
      if rest[j] != x {
        assert rest[j] in multiset(s[1..]);
        var m :| 0 <= m < |s[1..]| && s[1..][m] == rest[j];
        assert s[m + 1] == rest[j];
      }
    }
  }

  /**
   * Inserts `x` into an ordered sequence, in front of the first record it may
   * precede.
   */
  function Insert(x: Destination, s: seq<Destination>): (r: seq<Destination>)
    requires Ordered(s)
    ensures Ordered(r)
    ensures multiset(r) == multiset(s) + multiset{x}
  {
    if |s| == 0 then
      [x]
    else if KeyLeq(x, s[0]) then
      forall j | 0 <= j < |s|
        ensures KeyLeq(x, s[j])
      {
        if j > 0 {
          KeyLeqTransitive(x, s[0], s[j]);
        }
      }
      ConsOrdered(x, s);
      [x] + s
    else
      var rest := Insert(x, s[1..]);
      assert s == [s[0]] + s[1..];
      HeadPrecedesRest(x, s, rest);
      ConsOrdered(s[0], rest);
      [s[0]] + rest
  }

  /** Records whose key equals that of `x` and are already present end up after `x`. */
  lemma {:induction false} InsertKeepsKeyOrder(x: Destination, s: seq<Destination>, k: Destination)
    requires Ordered(s)
    ensures WithKeyOf(Insert(x, s), k) == (if SameKey(x, k) then [x] else []) + WithKeyOf(s, k)
  {
    if |s| == 0 {
      WithKeyOfCons(x, s, k);
      assert [x] + s == [x];
    } else if KeyLeq(x, s[0]) {
      WithKeyOfCons(x, s, k);
    } else {
      var rest := Insert(x, s[1..]);
      assert Insert(x, s) == [s[0]] + rest;
      InsertKeepsKeyOrder(x, s[1..], k);
      WithKeyOfCons(s[0], rest, k);
      WithKeyOfCons(s[0], s[1..], k);
      assert s == [s[0]] + s[1..];
      KeyLeqReflexive(x);
    }
  }

  /** `OrderByDescending(Priority).ThenBy(Name)`, stable. */
  function SortDestinations(s: seq<Destination>): (r: seq<Destination>)
    ensures Ordered(r)
    ensures multiset(r) == multiset(s)
    decreases |s|
  {
    if |s| == 0 then []
    else
      assert s == [s[0]] + s[1..];
      Insert(s[0], SortDestinations(s[1..]))
  }

  /**
   * The sort is stable: for every sort key, the records carrying it appear
   * in the result in the same order as in the input.
   */
  lemma {:induction false} SortIsStable(s: seq<Destination>, k: Destination)
    ensures WithKeyOf(SortDestinations(s), k) == WithKeyOf(s, k)
    decreases |s|
  {
    if |s| > 0 {
      SortIsStable(s[1..], k);
      InsertKeepsKeyOrder(s[0], SortDestinations(s[1..]), k);
      WithKeyOfCons(s[0], s[1..], k);
      assert s == [s[0]] + s[1..];
    }
  }

  /**
   * `GetAllDestinationsHandler`: every stored destination exactly once,
   * highest priority first, names ascending within a priority.
   */
  function GetAllDestinations(db: Database): (r: seq<Destination>)
    ensures multiset(r) == multiset(Listing(db.destinations))
    ensures forall i, j :: 0 <= i < j < |r| ==> Rank(r[i].priority) >= Rank(r[j].priority)
    ensures forall i, j :: 0 <= i < j < |r| && r[i].priority == r[j].priority ==> LexLeq(r[i].name, r[j].name)
    ensures db.Valid() ==> |r| == |db.destinations.rows|
    ensures db.Valid() ==> forall d :: d in r <==> exists id :: id in db.destinations.rows && db.destinations.rows[id] == d
  {
    var all := Listing(db.destinations);
    var r := SortDestinations(all);
    SameMembers(r, all);
    if db.Valid() then
      ListingContents(db.destinations);
      r
    else
      r
  }

  /** Two sequences with the same multiset have the same length and the same members. */
  lemma SameMembers<T>(a: seq<T>, b: seq<T>)
    requires multiset(a) == multiset(b)
    ensures |a| == |b|
    ensures forall x :: x in a <==> x in b
  {
    assert |a| == |multiset(a)| == |multiset(b)| == |b|;
    forall x
      ensures x in a <==> x in b
    {
      assert x in a <==> x in multiset(a);
      assert x in b <==> x in multiset(b);
    }
  }

  /** `GetDestinationByIdHandler`: null exactly when no destination has this id. */
  function GetDestinationById(db: Database, id: int): (r: Option<Destination>)
    ensures r.None? <==> id !in db.destinations.rows
    ensures r.Some? ==> r.value == db.destinations.rows[id]
  {
    Find(db.destinations, id)
  }
}
