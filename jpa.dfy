/** The Spring Data repository over the `short_urls` table: derived point
    lookups by either unique column, `save` of a new entity, and the two
    `@Modifying` UPDATE queries that bump a counter in place. */
module Jpa {
  import opened Records
  import Table

  class JpaShortUrlRepository {
    /** The table's rows in insertion order. */
    var rows: seq<Entity>

    /** Both uniqueness constraints of the entity hold, and ids are the generated ones. */
    ghost predicate Valid()
      reads this
    {
      Table.Valid(rows)
    }

    constructor ()
      ensures Valid() && rows == []
    {
      rows := [];
    }

    /** `findByShortUrl`: the row whose short URL is `shortUrl`, if any. */
    function FindByShortUrl(shortUrl: string): (r: Option<Entity>)
      reads this
      requires Valid()
      ensures r.Some? <==> exists i :: 0 <= i < |rows| && rows[i].shortUrl == shortUrl
      ensures forall i :: 0 <= i < |rows| && rows[i].shortUrl == shortUrl ==> r == Some(rows[i])
    {
      var r := Table.Find(rows, ShortUrlColumn, shortUrl);
      assert r.Some? ==> exists i :: 0 <= i < |rows| && rows[i] == r.value;
      forall i | 0 <= i < |rows| && rows[i].shortUrl == shortUrl ensures r == Some(rows[i]) {
        Table.FindUnique(rows, ShortUrlColumn, i);
      }
      r
    }

    /** `findByOriginalUrl`: the row whose original URL is `originalUrl`, if any. */
    function FindByOriginalUrl(originalUrl: string): (r: Option<Entity>)
      reads this
      requires Valid()
      ensures r.Some? <==> exists i :: 0 <= i < |rows| && rows[i].originalUrl == originalUrl
      ensures forall i :: 0 <= i < |rows| && rows[i].originalUrl == originalUrl ==> r == Some(rows[i])
    {
      var r := Table.Find(rows, OriginalUrlColumn, originalUrl);
      assert r.Some? ==> exists i :: 0 <= i < |rows| && rows[i] == r.value;
      forall i | 0 <= i < |rows| && rows[i].originalUrl == originalUrl ensures r == Some(rows[i]) {
        Table.FindUnique(rows, OriginalUrlColumn, i);
      }
      r
    }

    /** `save` of an entity without id: an insert that either violates a uniqueness
        constraint and changes nothing, or appends the row with a generated id. */
    method Save(e: Entity) returns (r: SaveResult<Entity>)
      requires Valid() && e.id.None?
      modifies this
      ensures Valid()
      ensures Table.Conflicts(old(rows), e) ==> r == UniqueViolation && rows == old(rows)
      ensures !Table.Conflicts(old(rows), e) ==>
        r == Inserted(Table.Stored(old(rows), e)) && rows == old(rows) + [r.value]
    {
      if Table.Conflicts(rows, e) {
        return UniqueViolation;
      }
      Table.InsertKeepsValid(rows, e);
      var stored := Table.Stored(rows, e);
      rows := rows + [stored];
      r := Inserted(stored);
    }

    /** `UPDATE ShortUrlEntity s SET s.requestCount = s.requestCount + 1 WHERE s.shortUrl = :shortCode`. */
    method IncrementRequestCount(shortCode: string) returns (ok: bool)
      requires Valid()
      modifies this
      ensures Valid()
      ensures ok <==> !Table.Overflows(old(rows), shortCode, RequestCounter)
      ensures ok ==> rows == Table.Bumped(old(rows), shortCode, RequestCounter)
      ensures !ok ==> rows == old(rows)
    {
      ok := Update(shortCode, RequestCounter);
    }

    /** `UPDATE ShortUrlEntity s SET s.usedCount = s.usedCount + 1 WHERE s.shortUrl = :shortCode`. */
    method IncrementUsedCount(shortCode: string) returns (ok: bool)
      requires Valid()
      modifies this
      ensures Valid()
      ensures ok <==> !Table.Overflows(old(rows), shortCode, UsedCounter)
      ensures ok ==> rows == Table.Bumped(old(rows), shortCode, UsedCounter)
      ensures !ok ==> rows == old(rows)
    {
      ok := Update(shortCode, UsedCounter);
    }

    /** One UPDATE statement: scans every row, adds one to counter `c` where the
        short URL matches, and is rejected as a whole (nothing changes) when a
        matching counter is already at the `int` column's maximum. */
    method Update(shortCode: string, c: Counter) returns (ok: bool)
      requires Valid()
      modifies this
      ensures Valid()
      ensures ok <==> !Table.Overflows(old(rows), shortCode, c)
      ensures ok ==> rows == Table.Bumped(old(rows), shortCode, c)
      ensures !ok ==> rows == old(rows)
    {
      var updated: seq<Entity> := [];
      var i := 0;
      while i < |rows|
        invariant 0 <= i <= |rows| && |updated| == i
        invariant forall j :: 0 <= j < i && rows[j].shortUrl == shortCode ==> CounterValue(rows[j], c) < IntMax
        invariant forall j :: 0 <= j < i ==> updated[j] == Table.BumpRow(rows[j], shortCode, c)
      {
        if rows[i].shortUrl == shortCode && CounterValue(rows[i], c) == IntMax {
          return false;
        }
        updated := updated + [Table.BumpRow(rows[i], shortCode, c)];
        i := i + 1;
      }
      assert updated == Table.Bumped(rows, shortCode, c);
      Table.BumpKeepsValid(rows, shortCode, c);
      rows := updated;
      ok := true;
    }
  }
}
