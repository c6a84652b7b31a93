/**
 * The repositories as an abstract id-keyed store. A table holds its rows and
 * the next identity value the database will hand out. `GetAllAsync` issues
 * its query without an `OrderBy`, so the order is the database's; the model
 * fixes it as ascending id order.
 */
module Store {
  import opened Wrappers
  import opened Entities
  import opened Aggregates

  datatype Table<T> = Table(rows: map<int, T>, nextId: int) {

    /** Every stored id was handed out earlier by the identity column. */
    predicate Valid() {
      1 <= nextId && forall k :: k in rows ==> 1 <= k < nextId
    }
  }

  /** `GetByIdAsync`: the row under `id`, or null. */
  function Find<T>(t: Table<T>, id: int): (r: Option<T>)
    ensures r.None? <==> id !in t.rows
    ensures r.Some? ==> r.value == t.rows[id]
  {
    if id in t.rows then Some(t.rows[id]) else None
  }

  /** `CreateAsync`: stores `x` under a fresh id and returns that id. */
  function Insert<T>(t: Table<T>, x: T): (r: (Table<T>, int))
    requires t.Valid()
    ensures r.1 !in t.rows
    ensures r.0.Valid()
    ensures r.0.rows.Keys == t.rows.Keys + {r.1}
    ensures r.0.rows[r.1] == x
    ensures forall k :: k in t.rows ==> r.0.rows[k] == t.rows[k]
    ensures |r.0.rows| == |t.rows| + 1
  {
    (Table(t.rows[t.nextId := x], t.nextId + 1), t.nextId)
  }

  /** `UpdateAsync` of an existing row. */
  function Replace<T>(t: Table<T>, id: int, x: T): (t': Table<T>)
    requires id in t.rows
    ensures t'.rows.Keys == t.rows.Keys && t'.nextId == t.nextId
    ensures t'.rows[id] == x
    ensures forall k :: k in t.rows && k != id ==> t'.rows[k] == t.rows[k]
    ensures t.Valid() ==> t'.Valid()
  {
    Table(t.rows[id := x], t.nextId)
  }

  /** `DeleteAsync`: drops the row under `id`, if any. */
  function Remove<T>(t: Table<T>, id: int): (t': Table<T>)
    ensures t'.rows.Keys == t.rows.Keys - {id} && t'.nextId == t.nextId
    ensures forall k :: k in t'.rows ==> t'.rows[k] == t.rows[k]
    ensures id in t.rows ==> |t'.rows| == |t.rows| - 1
    ensures id !in t.rows ==> t' == t
    ensures t.Valid() ==> t'.Valid()
  {
    if id in t.rows then Table(t.rows - {id}, t.nextId) else t
  }

  /** The rows with ids in [lo, hi), in ascending id order. */
  function ListFrom<T>(rows: map<int, T>, lo: int, hi: int): seq<T>
    decreases hi - lo
  {
    if lo >= hi then []
    else (if lo in rows then [rows[lo]] else []) + ListFrom(rows, lo + 1, hi)
  }

  /** `GetAllAsync`: every row of the table, in ascending id order (the model's choice of the unspecified order). */
  function Listing<T>(t: Table<T>): seq<T> {
    ListFrom(t.rows, 1, t.nextId)
  }

  /** Rows outside [lo, hi) do not affect the listing of [lo, hi). */
  lemma {:induction false} ListFromIgnores<T>(rows: map<int, T>, k: int, lo: int, hi: int)
    requires k < lo || hi <= k
    ensures ListFrom(rows, lo, hi) == ListFrom(rows - {k}, lo, hi)
    decreases hi - lo
  {
    if lo < hi {
      ListFromIgnores(rows, k, lo + 1, hi);
    }
  }

  /** Taking one row out of the map takes exactly that row out of the listing. */
  lemma {:induction false} ListFromSplit<T>(rows: map<int, T>, id: int, lo: int, hi: int)
    requires id in rows && lo <= id < hi
    ensures multiset(ListFrom(rows, lo, hi)) == multiset{rows[id]} + multiset(ListFrom(rows - {id}, lo, hi))
    decreases hi - lo
  {
    if lo == id {
      ListFromIgnores(rows, id, lo + 1, hi);
      assert ListFrom(rows - {id}, lo, hi) == ListFrom(rows - {id}, lo + 1, hi);
    } else {
      ListFromSplit(rows, id, lo + 1, hi);
      assert (lo in rows) == (lo in rows - {id});
    }
  }

  /** Removing a stored row removes exactly that row from the listing. */
  lemma ListingRemove<T>(t: Table<T>, id: int)
    requires t.Valid() && id in t.rows
    ensures multiset(Listing(t)) == multiset{t.rows[id]} + multiset(Listing(Remove(t, id)))
  {
    ListFromSplit(t.rows, id, 1, t.nextId);
  }

  /** Replacing a stored row swaps exactly that row in the listing. */
  lemma ListingReplace<T>(t: Table<T>, id: int, x: T)
    requires t.Valid() && id in t.rows
    ensures multiset(Listing(Replace(t, id, x)))
         == multiset(Listing(t)) - multiset{t.rows[id]} + multiset{x}
  {
    var t' := Replace(t, id, x);
    ListingRemove(t, id);
    ListingRemove(t', id);
    assert Remove(t', id) == Remove(t, id);
  }

  /** Inserting a row adds exactly that row to the listing. */
  lemma ListingInsert<T>(t: Table<T>, x: T)
    requires t.Valid()
    ensures multiset(Listing(Insert(t, x).0)) == multiset(Listing(t)) + multiset{x}
  {
    ListingRemove(Insert(t, x).0, t.nextId);
    RemoveUndoesInsert(t, x);
    ListFromTail(t.rows, 1, t.nextId);
  }

  /** Removing the row just inserted restores the rows; only the identity counter has moved on. */
  lemma RemoveUndoesInsert<T>(t: Table<T>, x: T)
    requires t.Valid()
    ensures Remove(Insert(t, x).0, t.nextId) == Table(t.rows, t.nextId + 1)
  {
    assert t.rows[t.nextId := x] - {t.nextId} == t.rows;
  }

  lemma {:induction false} ListFromTail<T>(rows: map<int, T>, lo: int, hi: int)
    requires lo <= hi && hi !in rows
    ensures ListFrom(rows, lo, hi + 1) == ListFrom(rows, lo, hi)
    decreases hi - lo
  {
    if lo < hi {
      ListFromTail(rows, lo + 1, hi);
    }
  }

  /** Listing an interval that covers every stored id gives one entry per id. */
  lemma {:induction false} ListFromLength<T>(rows: map<int, T>, lo: int, hi: int)
    requires forall k :: k in rows ==> lo <= k < hi
    ensures |ListFrom(rows, lo, hi)| == |rows|
    decreases hi - lo
  {
    if lo >= hi {
      assert rows == map[];
    } else if lo in rows {
      var rest := rows - {lo};
      ListFromIgnores(rows, lo, lo + 1, hi);
      ListFromLength(rest, lo + 1, hi);
    } else {
      ListFromLength(rows, lo + 1, hi);
    }
  }

  /** A record occurs in the listing of [lo, hi) exactly when some id in that interval maps to it. */
  lemma {:induction false} ListFromMembers<T>(rows: map<int, T>, lo: int, hi: int, x: T)
    ensures x in ListFrom(rows, lo, hi) <==> exists k :: lo <= k < hi && k in rows && rows[k] == x
    decreases hi - lo
  {
    if lo < hi {
      ListFromMembers(rows, lo + 1, hi, x);
      if exists k :: lo <= k < hi && k in rows && rows[k] == x {
        var k :| lo <= k < hi && k in rows && rows[k] == x;
        if k != lo {
          assert lo + 1 <= k < hi;
        }
      }
    }
  }

  /**
   * Listing an interval that covers every stored id yields each stored row
   * exactly once: as many entries as there are ids, and a record occurs in
   * it exactly when some id maps to it.
   */
  lemma ListFromContents<T>(rows: map<int, T>, lo: int, hi: int)
    requires forall k :: k in rows ==> lo <= k < hi
    ensures |ListFrom(rows, lo, hi)| == |rows|
    ensures forall x :: x in ListFrom(rows, lo, hi) <==> exists k :: k in rows && rows[k] == x
  {
    ListFromLength(rows, lo, hi);
    forall x
      ensures x in ListFrom(rows, lo, hi) <==> exists k :: k in rows && rows[k] == x
    {
      ListFromMembers(rows, lo, hi, x);
    }
  }

  /** The listing of a valid table holds each stored row exactly once. */
  lemma ListingContents<T>(t: Table<T>)
    requires t.Valid()
    ensures |Listing(t)| == |t.rows|
    ensures forall x :: x in Listing(t) <==> exists k :: k in t.rows && t.rows[k] == x
  {
    ListFromContents(t.rows, 1, t.nextId);
  }

  /** The ids in [lo, hi) whose row satisfies `p`. */
  function IdsBetween<T>(rows: map<int, T>, lo: int, hi: int, p: T -> bool): set<int> {
    set k | lo <= k < hi && k in rows && p(rows[k])
  }

  /** The stored ids whose row satisfies `p`. */
  function Ids<T>(rows: map<int, T>, p: T -> bool): set<int> {
    set k | k in rows && p(rows[k])
  }

  /** Counting over the listing of [lo, hi) counts the ids in that interval whose row qualifies. */
  lemma {:induction false} CountListFrom<T>(rows: map<int, T>, lo: int, hi: int, p: T -> bool)
    ensures Count(ListFrom(rows, lo, hi), p) == |IdsBetween(rows, lo, hi, p)|
    decreases hi - lo
  {
    var ids := IdsBetween(rows, lo, hi, p);
    if lo >= hi {
      assert ids == {};
    } else {
      var head := if lo in rows then [rows[lo]] else [];
      CountListFrom(rows, lo + 1, hi, p);
      CountAppend(head, ListFrom(rows, lo + 1, hi), p);
      var rest := IdsBetween(rows, lo + 1, hi, p);
      if lo in rows && p(rows[lo]) {
        assert [rows[lo]][1..] == [];
        assert ids == rest + {lo};
      } else {
        assert lo in rows ==> [rows[lo]][1..] == [];
        assert ids == rest;
      }
    }
  }

  /** Counting over the listing of a valid table counts the stored ids whose row qualifies. */
  lemma CountListing<T>(t: Table<T>, p: T -> bool)
    requires t.Valid()
    ensures Count(Listing(t), p) == |Ids(t.rows, p)|
  {
    CountListFrom(t.rows, 1, t.nextId, p);
    assert IdsBetween(t.rows, 1, t.nextId, p) == Ids(t.rows, p);
  }

  /** The images under `f` of the stored rows. */
  function StoredImage<T, U>(t: Table<T>, f: T -> U): set<U> {
    set id | id in t.rows :: f(t.rows[id])
  }

  /** `Select(f).Distinct()` over the listing of a valid table gives the images of the stored rows. */
  lemma ImageOfListing<T, U>(t: Table<T>, f: T -> U)
    requires t.Valid()
    ensures Image(Listing(t), f) == StoredImage(t, f)
  {
    var listed := Listing(t);
    ListingContents(t);
    forall y | y in Image(listed, f)
      ensures y in StoredImage(t, f)
    {
      var i :| 0 <= i < |listed| && f(listed[i]) == y;
      assert listed[i] in listed;
      var k :| k in t.rows && t.rows[k] == listed[i];
    }
    forall y | y in StoredImage(t, f)
      ensures y in Image(listed, f)
    {
      var k :| k in t.rows && f(t.rows[k]) == y;
      assert t.rows[k] in listed;
      var i :| 0 <= i < |listed| && listed[i] == t.rows[k];
    }
  }

  /** Both repositories. */
  datatype Database = Database(destinations: Table<Destination>, visitedPlaces: Table<VisitedPlace>) {
    predicate Valid() {
      destinations.Valid() && visitedPlaces.Valid()
    }
  }
}

/** What a command handler hands back: the database after the command, and its reply. */
module Commands {
  import opened Store

  datatype Outcome<R> = Outcome(db: Database, reply: R)

  /** A newly stored record together with the id the store gave it. */
  datatype Stored<T> = Stored(id: int, record: T)
}
