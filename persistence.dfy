/** The second copy of the service layer. Its repository adapter is not part
    of this model; the Postgres repository, whose behaviour the adapter's own
    tests describe field for field, stands in for it. Every operation has the
    same contract as its counterpart in `Database.DatasbaseService`. */
module Persistence {
  import opened Records
  import Table
  import Postgres
  import Database

  class ShortUrlPersistenceService {
    const repositoryAdapter: Postgres.PostgresRepository

    ghost predicate Valid()
      reads repositoryAdapter.jpaRepository
    {
      repositoryAdapter.Valid()
    }

    constructor (repositoryAdapter: Postgres.PostgresRepository)
      requires repositoryAdapter.Valid()
      ensures this.repositoryAdapter == repositoryAdapter && Valid()
    {
      this.repositoryAdapter := repositoryAdapter;
    }

    /** `findByOriginalUrl`: exactly what the adapter returns. */
    function FindByOriginalUrl(originalUrl: string): (r: Option<ShortUrl>)
      reads repositoryAdapter.jpaRepository
      requires Valid()
      ensures r == repositoryAdapter.FindByOriginalUrl(originalUrl)
      ensures r.Some? ==> r.value.originalUrl == originalUrl
    {
      repositoryAdapter.FindByOriginalUrl(originalUrl)
    }

    /** `findByShortUrl`: exactly what the adapter returns. */
    function FindByShortUrl(shortUrl: string): (r: Option<ShortUrl>)
      reads repositoryAdapter.jpaRepository
      requires Valid()
      ensures r == repositoryAdapter.FindByShortUrl(shortUrl)
      ensures r.Some? ==> r.value.shortUrl == shortUrl
    {
      repositoryAdapter.FindByShortUrl(shortUrl)
    }

    /** `save`: exactly what the adapter's insert returns. */
    method Save(entity: ShortUrl) returns (r: SaveResult<ShortUrl>)
      requires Valid()
      modifies repositoryAdapter.jpaRepository
      ensures Valid()
      ensures Table.Conflicts(old(repositoryAdapter.jpaRepository.rows), Postgres.MapToEntity(entity)) ==>
        r == UniqueViolation && repositoryAdapter.jpaRepository.rows == old(repositoryAdapter.jpaRepository.rows)
      ensures !Table.Conflicts(old(repositoryAdapter.jpaRepository.rows), Postgres.MapToEntity(entity)) ==>
        r == Inserted(entity)
        && repositoryAdapter.jpaRepository.rows == old(repositoryAdapter.jpaRepository.rows)
             + [Table.Stored(old(repositoryAdapter.jpaRepository.rows), Postgres.MapToEntity(entity))]
    {
      r := repositoryAdapter.Save(entity);
    }

    /** `incrementUsedCount` as written: read, change the copy, save the copy
        (the same shape, and over this adapter the same rejected insert, as
        `Database.DatasbaseService.IncrementUsedCount`). */
    method IncrementUsedCount(shortUrl: string) returns (handed: Option<ShortUrl>, saved: Option<SaveResult<ShortUrl>>)
      requires Valid()
      modifies repositoryAdapter.jpaRepository
      ensures Valid()
      ensures handed == Database.UsedCountHandedToSave(old(FindByShortUrl(shortUrl)))
      ensures handed.None? ==> saved.None?
      ensures handed.Some? ==> saved == Some(UniqueViolation)
      ensures (saved, repositoryAdapter.jpaRepository.rows) == Database.ReadChangeSave(old(repositoryAdapter.jpaRepository.rows), shortUrl)
      ensures repositoryAdapter.jpaRepository.rows == old(repositoryAdapter.jpaRepository.rows)
    {
      var found := repositoryAdapter.FindByShortUrl(shortUrl);
      handed := Database.UsedCountHandedToSave(found);
      saved := None;
      if handed.Some? {
        Database.FetchedRecordSaveConflicts(repositoryAdapter.jpaRepository.rows, shortUrl);
        var r := repositoryAdapter.Save(handed.value);
        saved := Some(r);
      }
    }

    /** `incrementRequestCount`: forwards its argument unchanged to the adapter. */
    method IncrementRequestCount(originalUrl: string) returns (ok: bool)
      requires Valid()
      modifies repositoryAdapter.jpaRepository
      ensures Valid()
      ensures ok <==> !Table.Overflows(old(repositoryAdapter.jpaRepository.rows), originalUrl, RequestCounter)
      ensures ok ==> repositoryAdapter.jpaRepository.rows == Table.Bumped(old(repositoryAdapter.jpaRepository.rows), originalUrl, RequestCounter)
      ensures !ok ==> repositoryAdapter.jpaRepository.rows == old(repositoryAdapter.jpaRepository.rows)
    {
      ok := repositoryAdapter.IncrementRequestCount(originalUrl);
    }
  }
}
