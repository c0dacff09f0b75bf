/** The record store behind a collection: the rows of one table as an
    immutable sequence, newest (highest id) first, with the three queries the
    controllers use (`findLastEntry`, `findNextX`, `countAll`). */
module Repository {
  import opened Wrappers

  /** A stored row: its primary key and the rest of its columns. */
  datatype Entity<T> = Entity(id: nat, fields: T)

  /** Rows in the order `ORDER BY id DESC` yields them; ids are unique. */
  predicate IdDescending<T>(rows: seq<Entity<T>>) {
    forall i, j :: 0 <= i < j < |rows| ==> rows[i].id > rows[j].id
  }

  function Ids<T>(rows: seq<Entity<T>>): (ids: seq<nat>)
    ensures |ids| == |rows|
    ensures forall i :: 0 <= i < |rows| ==> ids[i] == rows[i].id
  {
    seq(|rows|, i requires 0 <= i < |rows| => rows[i].id)
  }

  function IdSet<T>(rows: seq<Entity<T>>): set<nat> {
    set i | 0 <= i < |rows| :: rows[i].id
  }

  /** The query layer refuses a negative first result. */
  datatype QueryError = NegativeFirstResult(firstResult: int)

  const DefaultFirstResult: int := 0
  const DefaultMaxResults: nat := 10

  /** How many rows a window starting at `offset` of at most `limit` rows
      holds in a table of `count` rows. */
  function WindowSize(count: nat, offset: nat, limit: nat): nat {
    if offset >= count then 0 else Min(limit, count - offset)
  }

  /** `findNextX`: at most `maxResults` rows, skipping the first
      `firstResult`, in id-descending order. */
  function FindNextX<T>(rows: seq<Entity<T>>, firstResult: int, maxResults: nat)
    : (r: Result<seq<Entity<T>>, QueryError>)
    ensures r.Failure? <==> firstResult < 0
    ensures r.Failure? ==> r.error == NegativeFirstResult(firstResult)
    ensures r.Success? ==> |r.value| <= maxResults
    ensures r.Success? ==> |r.value| == WindowSize(|rows|, firstResult, maxResults)
    ensures r.Success? ==> forall k :: 0 <= k < |r.value| ==> r.value[k] == rows[firstResult + k]
    ensures r.Success? && IdDescending(rows) ==> IdDescending(r.value)
  {
    if firstResult < 0 then Failure(NegativeFirstResult(firstResult))
    else Success(rows[Min(firstResult, |rows|)..Min(firstResult + maxResults, |rows|)])
  }

  /** `findNextX()` with both defaults: the ten newest rows. */
  function FindFirstPage<T>(rows: seq<Entity<T>>): (r: seq<Entity<T>>)
    ensures |r| == Min(10, |rows|)
    ensures r == rows[..|r|]
  {
    FindNextX(rows, DefaultFirstResult, DefaultMaxResults).value
  }

  /** `countAll`: `count(id)`, the number of distinct keys in the table. */
  function CountAll<T>(rows: seq<Entity<T>>): (n: nat)
    ensures IdDescending(rows) ==> n == |IdSet(rows)|
  {
    if IdDescending(rows) then DistinctIdsCount(rows); |rows| else |rows|
  }

  lemma {:induction false} DistinctIdsCount<T>(rows: seq<Entity<T>>)
    requires IdDescending(rows)
    ensures |IdSet(rows)| == |rows|
    decreases |rows|
  {
    if |rows| > 0 {
      var rest := rows[1..];
      DistinctIdsCount(rest);
      assert IdSet(rows) == {rows[0].id} + IdSet(rest) by {
        forall x | x in IdSet(rows) ensures x in {rows[0].id} + IdSet(rest) {
          var i :| 0 <= i < |rows| && rows[i].id == x;
          if i > 0 { assert rest[i - 1].id == x; }
        }
        forall x | x in IdSet(rest) ensures x in IdSet(rows) {
          var i :| 0 <= i < |rest| && rest[i].id == x;
          assert rows[i + 1].id == x;
        }
      }
      assert rows[0].id !in IdSet(rest);
    } else {
      assert IdSet(rows) == {};
    }
  }

  /** `findLastEntry`: the newest row, or null on an empty table. */
  function FindLastEntry<T>(rows: seq<Entity<T>>): (r: Option<Entity<T>>)
    ensures r.None? <==> |rows| == 0
    ensures r.Some? ==> r.value in rows
    ensures r.Some? && IdDescending(rows) ==> forall e :: e in rows ==> e.id <= r.value.id
    ensures r.Some? ==> FindNextX(rows, 0, 1) == Success([r.value])
  {
    if |rows| == 0 then None
    else assert rows[0..1] == [rows[0]]; Some(rows[0])
  }

  /** Consecutive windows tile the table: a window of `a + b` rows is the
      window of `a` rows followed by the window of `b` rows after it. */
  lemma WindowsTile<T>(rows: seq<Entity<T>>, offset: nat, a: nat, b: nat)
    ensures FindNextX(rows, offset, a + b).value
         == FindNextX(rows, offset, a).value + FindNextX(rows, offset + a, b).value
  {
  }
}
