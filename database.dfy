/** The service layer the orchestrator talks to: lookups and `save` pass
    straight through to the repository, the request-count bump is forwarded,
    and the used-count bump is written as read, change, save. */
module Database {
  import opened Records
  import Table
  import Postgres

  /** What the read-change-save bump hands to `save`: the fetched record with
      its used count increased by Java's `+ 1`, or nothing (and no save at all)
      when the lookup found no record. */
  function UsedCountHandedToSave(found: Option<ShortUrl>): (r: Option<ShortUrl>)
    ensures r.Some? <==> found.Some?
    ensures r.Some? ==> var d, d' := found.value, r.value;
      && d'.shortUrl == d.shortUrl && d'.originalUrl == d.originalUrl && d'.requestCount == d.requestCount
      && (d.usedCount < IntMax ==> d'.usedCount == d.usedCount + 1)
      && (d.usedCount == IntMax ==> d'.usedCount == IntMin)
  {
    match found
    case None => None
    case Some(d) => Some(d.(usedCount := JavaInc(d.usedCount)))
  }

  /** The read-change-save bump never gets its change into a valid table: the
      record it saves carries the short URL (and original URL) of the row it was
      read from, and `save` is an insert, so the insert always violates a
      uniqueness constraint. */
  lemma FetchedRecordSaveConflicts(rows: seq<Entity>, shortUrl: string)
    requires Table.Valid(rows)
    requires Table.Find(rows, ShortUrlColumn, shortUrl).Some?
    ensures var handed := UsedCountHandedToSave(Postgres.MapFound(Table.Find(rows, ShortUrlColumn, shortUrl)));
      handed.Some? && Table.Conflicts(rows, Postgres.MapToEntity(handed.value))
  {
    var handed := UsedCountHandedToSave(Postgres.MapFound(Table.Find(rows, ShortUrlColumn, shortUrl)));
    assert handed.value.shortUrl == shortUrl;
  }

  /** What the read-change-save bump does to the table: the record handed to
      `save`, if any, goes through the insert, and its outcome is reported. */
  function ReadChangeSave(rows: seq<Entity>, shortUrl: string): (Option<SaveResult<ShortUrl>>, seq<Entity>)
  {
    match UsedCountHandedToSave(Postgres.MapFound(Table.Find(rows, ShortUrlColumn, shortUrl)))
    case None => (None, rows)
    case Some(d) =>
      var e := Postgres.MapToEntity(d);
      if Table.Conflicts(rows, e) then (Some(UniqueViolation), rows)
      else (Some(Inserted(d)), rows + [Table.Stored(rows, e)])
  }

  /** On a valid table the read-change-save bump never changes the table: it
      saves nothing for an unknown code, and the save is rejected for a known one. */
  lemma ReadChangeSaveChangesNothing(rows: seq<Entity>, shortUrl: string)
    requires Table.Valid(rows)
    ensures Table.Find(rows, ShortUrlColumn, shortUrl).None? ==> ReadChangeSave(rows, shortUrl) == (None, rows)
    ensures Table.Find(rows, ShortUrlColumn, shortUrl).Some? ==> ReadChangeSave(rows, shortUrl) == (Some(UniqueViolation), rows)
  {
    if Table.Find(rows, ShortUrlColumn, shortUrl).Some? {
      FetchedRecordSaveConflicts(rows, shortUrl);
    }
  }

  /** The read-change-save bump leaves a valid table, and so its count range, as it was. */
  lemma ReadChangeSaveKeepsCounts(rows: seq<Entity>, shortUrl: string)
    requires Table.Valid(rows) && Table.CountsInRange(rows)
    ensures Table.CountsInRange(ReadChangeSave(rows, shortUrl).1)
  {
    ReadChangeSaveChangesNothing(rows, shortUrl);
  }

  /** The atomic UPDATE does what the read-change-save bump was meant to do: the
      record of `shortUrl` gains exactly one use, the table stays valid, and
      every other record (looked up by either key) is unchanged. */
  lemma AtomicUsedCountAddsOne(rows: seq<Entity>, shortUrl: string, e: Entity)
    requires Table.Valid(rows)
    requires Table.Find(rows, ShortUrlColumn, shortUrl) == Some(e) && e.usedCount < IntMax
    ensures !Table.Overflows(rows, shortUrl, UsedCounter)
    ensures var rows' := Table.Bumped(rows, shortUrl, UsedCounter);
      && Table.Valid(rows')
      && Table.Find(rows', ShortUrlColumn, shortUrl) == Some(e.(usedCount := e.usedCount + 1))
      && Table.Find(rows', OriginalUrlColumn, e.originalUrl) == Some(e.(usedCount := e.usedCount + 1))
      && (forall v :: v != shortUrl ==> Table.Find(rows', ShortUrlColumn, v) == Table.Find(rows, ShortUrlColumn, v))
  {
    Table.OverflowsFound(rows, shortUrl, UsedCounter);
    Table.BumpKeepsValid(rows, shortUrl, UsedCounter);
    var rows' := Table.Bumped(rows, shortUrl, UsedCounter);
    Table.FindAfterBump(rows, shortUrl, UsedCounter, shortUrl);
    forall v | v != shortUrl
      ensures Table.Find(rows', ShortUrlColumn, v) == Table.Find(rows, ShortUrlColumn, v)
    {
      Table.FindAfterBump(rows, shortUrl, UsedCounter, v);
    }
    var i :| 0 <= i < |rows| && rows[i] == e;
    Table.BumpedRows(rows, shortUrl, UsedCounter, i);
    assert rows'[i] == e.(usedCount := e.usedCount + 1);
    Table.FindUnique(rows', OriginalUrlColumn, i);
  }

  class DatasbaseService {
    const repository: Postgres.PostgresRepository

    ghost predicate Valid()
      reads repository.jpaRepository
    {
      repository.Valid()
    }

    constructor (repository: Postgres.PostgresRepository)
      requires repository.Valid()
      ensures this.repository == repository && Valid()
    {
      this.repository := repository;
    }

    /** `findByOriginalUrl`: exactly what the repository returns. */
    function FindByOriginalUrl(originalUrl: string): (r: Option<ShortUrl>)
      reads repository.jpaRepository
      requires Valid()
      ensures r == repository.FindByOriginalUrl(originalUrl)
      ensures r.Some? ==> r.value.originalUrl == originalUrl
    {
      repository.FindByOriginalUrl(originalUrl)
    }

    /** `findByShortUrl`: exactly what the repository returns. */
    function FindByShortUrl(shortUrl: string): (r: Option<ShortUrl>)
      reads repository.jpaRepository
      requires Valid()
      ensures r == repository.FindByShortUrl(shortUrl)
      ensures r.Some? ==> r.value.shortUrl == shortUrl
    {
      repository.FindByShortUrl(shortUrl)
    }

    /** `save`: exactly what the repository's insert returns. */
    method Save(entity: ShortUrl) returns (r: SaveResult<ShortUrl>)
      requires Valid()
      modifies repository.jpaRepository
      ensures Valid()
      ensures Table.Conflicts(old(repository.jpaRepository.rows), Postgres.MapToEntity(entity)) ==>
        r == UniqueViolation && repository.jpaRepository.rows == old(repository.jpaRepository.rows)
      ensures !Table.Conflicts(old(repository.jpaRepository.rows), Postgres.MapToEntity(entity)) ==>
        r == Inserted(entity)
        && repository.jpaRepository.rows == old(repository.jpaRepository.rows)
             + [Table.Stored(old(repository.jpaRepository.rows), Postgres.MapToEntity(entity))]
    {
      r := repository.Save(entity);
    }

    /** `incrementUsedCount` as written: looks the record up, bumps its used
        count on the copy, and saves the copy. `handed` is what was given to
        `save` (nothing when the lookup missed), `saved` what `save` returned.
        Because `save` inserts, the save of a found record is always rejected
        and the table never changes. */
    method IncrementUsedCount(shortUrl: string) returns (handed: Option<ShortUrl>, saved: Option<SaveResult<ShortUrl>>)
      requires Valid()
      modifies repository.jpaRepository
      ensures Valid()
      ensures handed == UsedCountHandedToSave(old(FindByShortUrl(shortUrl)))
      ensures handed.None? ==> saved.None?
      ensures handed.Some? ==> saved == Some(UniqueViolation)
      ensures (saved, repository.jpaRepository.rows) == ReadChangeSave(old(repository.jpaRepository.rows), shortUrl)
      ensures repository.jpaRepository.rows == old(repository.jpaRepository.rows)
    {
      var found := repository.FindByShortUrl(shortUrl);
      handed := UsedCountHandedToSave(found);
      saved := None;
      if handed.Some? {
        FetchedRecordSaveConflicts(repository.jpaRepository.rows, shortUrl);
        var r := repository.Save(handed.value);
        saved := Some(r);
      }
    }

    /** The used-count bump as evidently intended: the repository's atomic
        UPDATE on the row whose short URL is `shortUrl`. */
    method IncrementUsedCountAtomic(shortUrl: string) returns (ok: bool)
      requires Valid()
      modifies repository.jpaRepository
      ensures Valid()
      ensures ok <==> !Table.Overflows(old(repository.jpaRepository.rows), shortUrl, UsedCounter)
      ensures ok ==> repository.jpaRepository.rows == Table.Bumped(old(repository.jpaRepository.rows), shortUrl, UsedCounter)
      ensures !ok ==> repository.jpaRepository.rows == old(repository.jpaRepository.rows)
    {
      ok := repository.IncrementUsedCount(shortUrl);
    }

    /** `incrementRequestCount`: forwards its argument unchanged; although the
        parameter is called `originalUrl`, the UPDATE matches it against the
        short URL column. */
    method IncrementRequestCount(originalUrl: string) returns (ok: bool)
      requires Valid()
      modifies repository.jpaRepository
      ensures Valid()
      ensures ok <==> !Table.Overflows(old(repository.jpaRepository.rows), originalUrl, RequestCounter)
      ensures ok ==> repository.jpaRepository.rows == Table.Bumped(old(repository.jpaRepository.rows), originalUrl, RequestCounter)
      ensures !ok ==> repository.jpaRepository.rows == old(repository.jpaRepository.rows)
    {
      ok := repository.IncrementRequestCount(originalUrl);
    }
  }
}
