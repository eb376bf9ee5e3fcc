/** The `short_urls` table as a sequence of rows in insertion order, with its
    two uniqueness constraints, point lookups, the insert performed by
    `save` on an entity without id, and the in-place counter UPDATE. */
module Table {
  import opened Records

  /** No two rows share a value in column `c`. */
  ghost predicate Unique(rows: seq<Entity>, c: Column)
  {
    forall i, j :: 0 <= i < j < |rows| ==> ColumnValue(rows[i], c) != ColumnValue(rows[j], c)
  }

  /** The identity column numbers the rows 1, 2, 3, ... in insertion order. */
  ghost predicate IdentityIds(rows: seq<Entity>)
  {
    forall i :: 0 <= i < |rows| ==> rows[i].id == Some(i + 1)
  }

  /** The table invariant: both uniqueness constraints and generated ids. */
  ghost predicate Valid(rows: seq<Entity>)
  {
    Unique(rows, ShortUrlColumn) && Unique(rows, OriginalUrlColumn) && IdentityIds(rows)
  }

  /** The range the service keeps its counters in: a stored record has been
      requested at least once and used a non-negative number of times. This is
      not a database constraint; it is what inserts of new records and the
      increments preserve. */
  ghost predicate CountsInRange(rows: seq<Entity>)
  {
    forall i :: 0 <= i < |rows| ==> rows[i].requestCount >= 1 && rows[i].usedCount >= 0
  }

  /** Point lookup: the first row whose column `c` holds `v`. */
  function Find(rows: seq<Entity>, c: Column, v: string): (r: Option<Entity>)
    ensures r.Some? ==> r.value in rows && ColumnValue(r.value, c) == v
    ensures r.None? <==> forall i :: 0 <= i < |rows| ==> ColumnValue(rows[i], c) != v
  {
    if rows == [] then None
    else if ColumnValue(rows[0], c) == v then Some(rows[0])
    else Find(rows[1..], c, v)
  }

  /** Under the uniqueness constraint, the lookup returns exactly the row holding the key. */
  lemma {:induction false} FindUnique(rows: seq<Entity>, c: Column, i: nat)
    requires Unique(rows, c) && i < |rows|
    ensures Find(rows, c, ColumnValue(rows[i], c)) == Some(rows[i])
  {
    if i > 0 {
      assert ColumnValue(rows[0], c) != ColumnValue(rows[i], c);
      assert Unique(rows[1..], c) by {
        forall a, b | 0 <= a < b < |rows| - 1
          ensures ColumnValue(rows[1..][a], c) != ColumnValue(rows[1..][b], c)
        {
          assert rows[1..][a] == rows[a + 1] && rows[1..][b] == rows[b + 1];
        }
      }
      FindUnique(rows[1..], c, i - 1);
    }
  }

  /** An insert of `e` violates a constraint iff one of its two keys is already taken. */
  predicate Conflicts(rows: seq<Entity>, e: Entity)
  {
    Find(rows, ShortUrlColumn, e.shortUrl).Some? || Find(rows, OriginalUrlColumn, e.originalUrl).Some?
  }

  /** The row that an insert of `e` adds: the entity with the next generated id. */
  function Stored(rows: seq<Entity>, e: Entity): (r: Entity)
    ensures r.id == Some(|rows| + 1)
    ensures r.(id := e.id) == e
  {
    e.(id := Some(|rows| + 1))
  }

  /** An insert that keeps both constraints extends a valid table to a valid table. */
  lemma InsertKeepsValid(rows: seq<Entity>, e: Entity)
    requires Valid(rows) && !Conflicts(rows, e)
    ensures Valid(rows + [Stored(rows, e)])
  {
    var rows' := rows + [Stored(rows, e)];
    forall c: Column ensures Unique(rows', c) {
      forall i, j | 0 <= i < j < |rows'| ensures ColumnValue(rows'[i], c) != ColumnValue(rows'[j], c) {
        if j == |rows| {
          assert Find(rows, c, ColumnValue(e, c)).None? by {
            match c
            case ShortUrlColumn =>
            case OriginalUrlColumn =>
          }
        }
      }
    }
  }

  /** One row after the UPDATE of counter `c` for key `k`. */
  function BumpRow(e: Entity, k: string, c: Counter): Entity
    requires e.shortUrl == k ==> CounterValue(e, c) < IntMax
  {
    if e.shortUrl != k then e
    else match c
      case RequestCounter => e.(requestCount := e.requestCount + 1)
      case UsedCounter => e.(usedCount := e.usedCount + 1)
  }

  /** The UPDATE would push a matching row's counter past the `int` column's range. */
  predicate Overflows(rows: seq<Entity>, k: string, c: Counter)
  {
    exists i :: 0 <= i < |rows| && rows[i].shortUrl == k && CounterValue(rows[i], c) == IntMax
  }

  /** `UPDATE ... SET <c> = <c> + 1 WHERE shortUrl = k` applied to every row. */
  function Bumped(rows: seq<Entity>, k: string, c: Counter): (r: seq<Entity>)
    requires !Overflows(rows, k, c)
  {
    seq(|rows|, i requires 0 <= i < |rows| => BumpRow(rows[i], k, c))
  }

  /** The UPDATE keeps every key, every id and every other counter, and adds one
      to counter `c` exactly on the rows whose short URL is `k`. */
  lemma BumpedRows(rows: seq<Entity>, k: string, c: Counter, i: nat)
    requires !Overflows(rows, k, c) && i < |rows|
    ensures |Bumped(rows, k, c)| == |rows|
    ensures var e, e' := rows[i], Bumped(rows, k, c)[i];
      && e'.id == e.id && e'.shortUrl == e.shortUrl && e'.originalUrl == e.originalUrl
      && CounterValue(e', c) == (if e.shortUrl == k then CounterValue(e, c) + 1 else CounterValue(e, c))
      && (c == RequestCounter ==> e'.usedCount == e.usedCount)
      && (c == UsedCounter ==> e'.requestCount == e.requestCount)
  {
  }

  /** The UPDATE keeps the table invariant. */
  lemma BumpKeepsValid(rows: seq<Entity>, k: string, c: Counter)
    requires Valid(rows) && !Overflows(rows, k, c)
    ensures Valid(Bumped(rows, k, c))
  {
    var rows' := Bumped(rows, k, c);
    forall i | 0 <= i < |rows| ensures ColumnValue(rows'[i], ShortUrlColumn) == ColumnValue(rows[i], ShortUrlColumn)
      && ColumnValue(rows'[i], OriginalUrlColumn) == ColumnValue(rows[i], OriginalUrlColumn)
      && rows'[i].id == rows[i].id
    {
      BumpedRows(rows, k, c, i);
    }
  }

  /** The UPDATE only raises counters, so it keeps them in range. */
  lemma BumpKeepsCounts(rows: seq<Entity>, k: string, c: Counter)
    requires CountsInRange(rows) && !Overflows(rows, k, c)
    ensures CountsInRange(Bumped(rows, k, c))
  {
    forall i | 0 <= i < |rows|
      ensures Bumped(rows, k, c)[i].requestCount >= rows[i].requestCount
      ensures Bumped(rows, k, c)[i].usedCount >= rows[i].usedCount
    {
      BumpedRows(rows, k, c, i);
    }
  }

  /** An UPDATE whose key matches no row changes nothing. */
  lemma BumpMissingKey(rows: seq<Entity>, k: string, c: Counter)
    requires Find(rows, ShortUrlColumn, k).None?
    ensures !Overflows(rows, k, c) && Bumped(rows, k, c) == rows
  {
    assert forall i :: 0 <= i < |rows| ==> ColumnValue(rows[i], ShortUrlColumn) != k;
  }

  /** On a valid table the UPDATE overflows iff the one row holding `k` is at the `int` maximum. */
  lemma OverflowsFound(rows: seq<Entity>, k: string, c: Counter)
    requires Unique(rows, ShortUrlColumn)
    ensures Overflows(rows, k, c) <==> (Find(rows, ShortUrlColumn, k).Some? && CounterValue(Find(rows, ShortUrlColumn, k).value, c) == IntMax)
  {
    if Overflows(rows, k, c) {
      var i :| 0 <= i < |rows| && rows[i].shortUrl == k && CounterValue(rows[i], c) == IntMax;
      FindUnique(rows, ShortUrlColumn, i);
    } else if Find(rows, ShortUrlColumn, k).Some? {
      var e := Find(rows, ShortUrlColumn, k).value;
      var i :| 0 <= i < |rows| && rows[i] == e;
      assert rows[i].shortUrl == k;
    }
  }

  /** On a valid table, a lookup by short URL after the UPDATE sees the row it saw
      before, with counter `c` one higher when that row's key is `k`; in particular
      the row of `k` gains one and every other row is unchanged. */
  lemma FindAfterBump(rows: seq<Entity>, k: string, c: Counter, v: string)
    requires Unique(rows, ShortUrlColumn) && !Overflows(rows, k, c)
    ensures Find(rows, ShortUrlColumn, v).None? ==> Find(Bumped(rows, k, c), ShortUrlColumn, v).None?
    ensures Find(rows, ShortUrlColumn, v).Some? ==>
      Find(Bumped(rows, k, c), ShortUrlColumn, v) == Some(BumpRow(Find(rows, ShortUrlColumn, v).value, k, c))
    ensures v != k ==> Find(Bumped(rows, k, c), ShortUrlColumn, v) == Find(rows, ShortUrlColumn, v)
  {
    var rows' := Bumped(rows, k, c);
    BumpKeepsValidShort(rows, k, c);
    if Find(rows, ShortUrlColumn, v).Some? {
      var e := Find(rows, ShortUrlColumn, v).value;
      var i :| 0 <= i < |rows| && rows[i] == e;
      BumpedRows(rows, k, c, i);
      FindUnique(rows', ShortUrlColumn, i);
    } else {
      forall i | 0 <= i < |rows'| ensures rows'[i].shortUrl != v {
        BumpedRows(rows, k, c, i);
      }
    }
  }

  /** The short-URL constraint survives the UPDATE (a step of FindAfterBump). */
  lemma BumpKeepsValidShort(rows: seq<Entity>, k: string, c: Counter)
    requires Unique(rows, ShortUrlColumn) && !Overflows(rows, k, c)
    ensures Unique(Bumped(rows, k, c), ShortUrlColumn)
  {
    var rows' := Bumped(rows, k, c);
    forall i | 0 <= i < |rows| ensures rows'[i].shortUrl == rows[i].shortUrl {
      BumpedRows(rows, k, c, i);
    }
  }
}
