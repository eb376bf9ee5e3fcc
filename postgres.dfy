/** The repository adapter: maps between the service-level record and the
    persisted entity, and forwards every operation to the JPA repository. */
module Postgres {
  import opened Records
  import Table
  import Jpa

  /** `mapToDomain`: copies the four record fields and drops the id. */
  function MapToDomain(e: Entity): ShortUrl
  {
    ShortUrl(e.shortUrl, e.originalUrl, e.requestCount, e.usedCount)
  }

  /** `mapToEntity`: a fresh entity (no id) carrying the record's four fields;
      mapping it back gives the record unchanged. */
  function MapToEntity(d: ShortUrl): (e: Entity)
    ensures e.id.None?
    ensures MapToDomain(e) == d
  {
    Entity(None, d.originalUrl, d.shortUrl, d.requestCount, d.usedCount)
  }

  /** The other direction: an entity mapped to a record and back loses only its id. */
  lemma EntityRoundTrip(e: Entity)
    ensures MapToEntity(MapToDomain(e)) == e.(id := None)
  {
  }

  /** Lifts `mapToDomain` over an optional lookup result. */
  function MapFound(found: Option<Entity>): (r: Option<ShortUrl>)
    ensures r.Some? <==> found.Some?
    ensures r.Some? ==> r.value == MapToDomain(found.value)
  {
    match found
    case None => None
    case Some(e) => Some(MapToDomain(e))
  }

  class PostgresRepository {
    const jpaRepository: Jpa.JpaShortUrlRepository

    ghost predicate Valid()
      reads jpaRepository
    {
      jpaRepository.Valid()
    }

    constructor (jpaRepository: Jpa.JpaShortUrlRepository)
      requires jpaRepository.Valid()
      ensures this.jpaRepository == jpaRepository && Valid()
    {
      this.jpaRepository := jpaRepository;
    }

    /** `findByOriginalUrl`: the stored row for `originalUrl` with its four fields, or nothing. */
    function FindByOriginalUrl(originalUrl: string): (r: Option<ShortUrl>)
      reads jpaRepository
      requires Valid()
      ensures r.Some? <==> jpaRepository.FindByOriginalUrl(originalUrl).Some?
      ensures r.Some? ==> r.value.originalUrl == originalUrl
      ensures r.Some? ==> MapToEntity(r.value) == jpaRepository.FindByOriginalUrl(originalUrl).value.(id := None)
    {
      MapFound(jpaRepository.FindByOriginalUrl(originalUrl))
    }

    /** `findByShortUrl`: the stored row for `shortUrl` with its four fields, or nothing. */
    function FindByShortUrl(shortUrl: string): (r: Option<ShortUrl>)
      reads jpaRepository
      requires Valid()
      ensures r.Some? <==> jpaRepository.FindByShortUrl(shortUrl).Some?
      ensures r.Some? ==> r.value.shortUrl == shortUrl
      ensures r.Some? ==> MapToEntity(r.value) == jpaRepository.FindByShortUrl(shortUrl).value.(id := None)
    {
      MapFound(jpaRepository.FindByShortUrl(shortUrl))
    }

    /** `save`: maps the record to a fresh entity without id, so the JPA save is an
        insert under both uniqueness constraints; on success it returns a record
        field-equal to its input. */
    method Save(shortUrl: ShortUrl) returns (r: SaveResult<ShortUrl>)
      requires Valid()
      modifies jpaRepository
      ensures Valid()
      ensures Table.Conflicts(old(jpaRepository.rows), MapToEntity(shortUrl)) ==>
        r == UniqueViolation && jpaRepository.rows == old(jpaRepository.rows)
      ensures !Table.Conflicts(old(jpaRepository.rows), MapToEntity(shortUrl)) ==>
        r == Inserted(shortUrl)
        && jpaRepository.rows == old(jpaRepository.rows) + [Table.Stored(old(jpaRepository.rows), MapToEntity(shortUrl))]
    {
      var entity := MapToEntity(shortUrl);
      var saved := jpaRepository.Save(entity);
      match saved
      case UniqueViolation => r := UniqueViolation;
      case Inserted(e) => r := Inserted(MapToDomain(e));
    }

    /** `incrementRequestCount`: forwards the key unchanged to the JPA UPDATE. */
    method IncrementRequestCount(shortUrl: string) returns (ok: bool)
      requires Valid()
      modifies jpaRepository
      ensures Valid()
      ensures ok <==> !Table.Overflows(old(jpaRepository.rows), shortUrl, RequestCounter)
      ensures ok ==> jpaRepository.rows == Table.Bumped(old(jpaRepository.rows), shortUrl, RequestCounter)
      ensures !ok ==> jpaRepository.rows == old(jpaRepository.rows)
    {
      ok := jpaRepository.IncrementRequestCount(shortUrl);
    }

    /** `incrementUsedCount`: forwards the key unchanged to the JPA UPDATE. */
    method IncrementUsedCount(shortUrl: string) returns (ok: bool)
      requires Valid()
      modifies jpaRepository
      ensures Valid()
      ensures ok <==> !Table.Overflows(old(jpaRepository.rows), shortUrl, UsedCounter)
      ensures ok ==> jpaRepository.rows == Table.Bumped(old(jpaRepository.rows), shortUrl, UsedCounter)
      ensures !ok ==> jpaRepository.rows == old(jpaRepository.rows)
    {
      ok := jpaRepository.IncrementUsedCount(shortUrl);
    }
  }
}
