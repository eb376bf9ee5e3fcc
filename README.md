# url-shortener: the shorten / deduplicate core in Dafny

This project models the core of a URL shortener (a Spring service over a
Postgres table `short_urls`). `shortenUrl` derives a short code from a long
URL. It hashes the URL, salting it with the attempt number on retries, and
tries at most five candidate codes until one is not yet stored. It then
inserts a new record. If the insert violates a uniqueness constraint because
the URL is already stored, it falls back to that record and bumps its request
count. `incrementUsedCount`, `getStatistics` and `getOriginalUrl` work on the
record of a short code.

The layers are modelled as the source has them: one class per component, each
holding a reference to the next.

- `Shortener.ShortenerService` sits over `Database.DatasbaseService`.
- `Database.DatasbaseService` sits over `Postgres.PostgresRepository`.
- `Postgres.PostgresRepository` sits over `Jpa.JpaShortUrlRepository`.
- `Persistence.ShortUrlPersistenceService` is the second copy of the service layer.

Only the JPA repository has state: `rows`, the rows of the table in insertion
order. Every other method's frame is that one object.

The table and its operations are specified as functions in module `Table`:

- lookup by either unique column;
- the insert that `save` performs on an entity without id;
- the in-place `UPDATE` of a counter.

The table invariant `Table.Valid` holds both uniqueness constraints and the
generated ids. `Shortener.CreateSpec` and `Shortener.ShortenSpec` state what
`createShortUrl` and `shortenUrl` return and leave in the table. The service
methods are proved equal to these functions, and the lemmas prove the
promised properties about the functions:

- deduplication: exactly one record per URL;
- the least free candidate is chosen;
- the request count goes up by one per repeated shortening;
- the used-count bump as written never changes the table, while the atomic
  bump it evidently meant adds one per call;
- the conflict-without-record case cannot happen in a sequential run.

Java `int` counters are the subset type `Records.Int32`. Java's `+ 1` wraps
(`Records.JavaInc`). A database `UPDATE` that would push an `int` column past
its maximum is rejected as a whole and changes nothing.

Three points of the code shape the model:

- `DatasbaseService.incrementUsedCount` reads the record, changes the copy and saves it (see Findings). `JpaShortUrlRepository.incrementUsedCount` offers a one-statement `UPDATE` of the same counter, which the corrected member uses. `Shortener.ShortenerService.IncrementUsedCount` runs the read-change-save code as written; the corrected bump is the separate `Shortener.ShortenerService.IncrementUsedCountAtomic`.
- `createShortUrl` stores its record with `save`, which for an entity without id is a plain insert.
- The exhausted candidate loop throws one `RuntimeException`. The generic `catch (Exception e)` of `createShortUrl` (ShortenerService.java:109-111) wraps it in another. Both are the single outcome `GenerateFailed`.

## Model

| member | source | states |
|---|---|---|
| Records.JavaInc | src/main/java/com/example/urlshortener/ShortenerService.java:43 | Java `int` addition (section 15.18.2 of the Java Language Specification): the result is the `int` congruent to `x + 1` modulo 2^32 |
| Records.JavaIncUnique | src/main/java/com/example/urlshortener/ShortenerService.java:43 | that congruence determines the result, and at the maximum it wraps to the minimum |
| Records.JavaIncBelowMax | src/main/java/com/example/urlshortener/ShortenerService.java:43 | below the maximum the increment is the exact sum |
| Table.Unique | src/main/java/com/example/urlshortener/database/ShortUrlEntity.java:12-15 | definition: no two rows share a value in the column, one `@UniqueConstraint`; proved about in `Table.FindUnique` and `Table.InsertKeepsValid` |
| Table.IdentityIds | src/main/java/com/example/urlshortener/database/ShortUrlEntity.java:19-21 | definition: the identity column numbers the rows 1, 2, 3, … in insertion order; proved about in `Table.InsertKeepsValid` and `Table.BumpKeepsValid` |
| Table.Valid | src/main/java/com/example/urlshortener/database/ShortUrlEntity.java:12-21 | definition: the store invariant, both uniqueness constraints and the identity numbering; proved about in `Table.InsertKeepsValid`, `Table.BumpKeepsValid` and `Shortener.ShortenKeepsValid` |
| Table.CountsInRange | src/main/java/com/example/urlshortener/database/ShortUrlEntity.java:27-29 | definition: every record has request count at least 1 and used count at least 0; proved about in `Table.BumpKeepsCounts`, `Database.ReadChangeSaveKeepsCounts` and `Shortener.ShortenKeepsCounts` |
| Table.Conflicts | src/main/java/com/example/urlshortener/database/ShortUrlEntity.java:12-15 | definition: an insert violates a constraint iff its short URL or its original URL is already stored; proved about in `Table.InsertKeepsValid` and `Database.FetchedRecordSaveConflicts` |
| Table.BumpRow | src/main/java/com/example/urlshortener/persistence/JpaShortUrlRepository.java:15 | definition: one row after `SET <counter> = <counter> + 1 WHERE shortUrl = :shortCode`; proved about in `Table.BumpedRows` |
| Table.Overflows | src/main/java/com/example/urlshortener/database/ShortUrlEntity.java:27-29 | definition: some matching row has the counter at the `int` maximum; proved about in `Table.OverflowsFound` |
| Table.Bumped | src/main/java/com/example/urlshortener/persistence/JpaShortUrlRepository.java:15-19 | definition: the UPDATE applied to every row; proved about in `Table.BumpedRows`, `Table.BumpKeepsValid` and `Table.FindAfterBump` |
| Table.Find | src/main/java/com/example/urlshortener/persistence/JpaShortUrlRepository.java:11-12 | a derived lookup returns a stored row holding the key in the column, and returns nothing iff no row holds it |
| Table.FindUnique | src/main/java/com/example/urlshortener/database/ShortUrlEntity.java:12-15 | under a uniqueness constraint the lookup of a row's key returns exactly that row |
| Table.Stored | src/main/java/com/example/urlshortener/database/ShortUrlEntity.java:19-21 | an inserted row gets the next identity value and keeps every other field |
| Table.InsertKeepsValid | src/main/java/com/example/urlshortener/database/ShortUrlEntity.java:12-15 | an insert that violates neither constraint keeps both constraints and the identity numbering |
| Table.BumpedRows | src/main/java/com/example/urlshortener/persistence/JpaShortUrlRepository.java:13-20 | the UPDATE adds one to the chosen counter exactly on rows whose short URL matches; ids, keys and the other counter are unchanged |
| Table.BumpKeepsValid | src/main/java/com/example/urlshortener/persistence/JpaShortUrlRepository.java:13-20 | the UPDATE keeps the table invariant |
| Table.BumpKeepsValidShort | src/main/java/com/example/urlshortener/persistence/JpaShortUrlRepository.java:13-20 | the UPDATE keeps the short-URL uniqueness constraint |
| Table.BumpKeepsCounts | src/main/java/com/example/urlshortener/persistence/JpaShortUrlRepository.java:13-20 | the counter UPDATE keeps every record's counts in range |
| Table.BumpMissingKey | src/main/java/com/example/urlshortener/persistence/JpaShortUrlRepository.java:13-20 | an UPDATE whose key matches no row cannot overflow and changes nothing |
| Table.OverflowsFound | src/main/java/com/example/urlshortener/database/ShortUrlEntity.java:27-29 | on a valid table the UPDATE overflows iff the one row holding the key has the counter at the `int` maximum |
| Table.FindAfterBump | src/main/java/com/example/urlshortener/persistence/JpaShortUrlRepository.java:13-20 | after the UPDATE a short-URL lookup finds the same row as before, bumped iff it is the key's row; other keys see no change |
| Jpa.JpaShortUrlRepository.Valid | src/main/java/com/example/urlshortener/database/ShortUrlEntity.java:12-21 | definition: the repository's rows satisfy `Table.Valid`; kept by every method of the class |
| Jpa.JpaShortUrlRepository.FindByShortUrl | src/main/java/com/example/urlshortener/persistence/JpaShortUrlRepository.java:12 | returns a row iff one has the short URL, and then exactly that row |
| Jpa.JpaShortUrlRepository.FindByOriginalUrl | src/main/java/com/example/urlshortener/persistence/JpaShortUrlRepository.java:11 | returns a row iff one has the original URL, and then exactly that row |
| Jpa.JpaShortUrlRepository.Save | src/main/java/com/example/urlshortener/persistence/JpaShortUrlRepository.java:10 | inherited `save` of a new entity: rejected with nothing changed iff a key is taken, otherwise appends the row with its generated id and returns it |
| Jpa.JpaShortUrlRepository.Update | src/main/java/com/example/urlshortener/persistence/JpaShortUrlRepository.java:13-20 | the UPDATE loop succeeds iff no matching counter is at the maximum, and then leaves exactly the bumped table; otherwise nothing changes |
| Jpa.JpaShortUrlRepository.IncrementRequestCount | src/main/java/com/example/urlshortener/persistence/JpaShortUrlRepository.java:13-16 | the request-count UPDATE keyed by short URL, with the same outcome as `Update` |
| Jpa.JpaShortUrlRepository.IncrementUsedCount | src/main/java/com/example/urlshortener/persistence/JpaShortUrlRepository.java:17-20 | the used-count UPDATE keyed by short URL, with the same outcome as `Update` |
| Postgres.MapToDomain | src/main/java/com/example/urlshortener/database/PostgresRepository.java:15-22 | definition: the record with the entity's four fields; proved about in `Postgres.MapToEntity` and `Postgres.EntityRoundTrip` |
| Postgres.MapToEntity | src/main/java/com/example/urlshortener/database/PostgresRepository.java:24-31 | the mapped entity has no id and maps back to the same record |
| Postgres.EntityRoundTrip | src/main/java/com/example/urlshortener/database/PostgresRepository.java:15-31 | entity to record to entity loses only the id |
| Postgres.MapFound | src/main/java/com/example/urlshortener/database/PostgresRepository.java:34-40 | `Optional.map(mapToDomain)`: present iff the entity is, and then its mapped record |
| Postgres.PostgresRepository.FindByOriginalUrl | src/main/java/com/example/urlshortener/database/PostgresRepository.java:34-36 | present iff the JPA lookup finds a row; the record has the URL and the row's four fields |
| Postgres.PostgresRepository.FindByShortUrl | src/main/java/com/example/urlshortener/database/PostgresRepository.java:38-40 | present iff the JPA lookup finds a row; the record has the code and the row's four fields |
| Postgres.PostgresRepository.Save | src/main/java/com/example/urlshortener/database/PostgresRepository.java:44-48 | an insert of the id-less entity: a uniqueness violation with nothing changed, or the row appended and a record equal to the input returned |
| Postgres.PostgresRepository.IncrementRequestCount | src/main/java/com/example/urlshortener/database/PostgresRepository.java:50-53 | forwards the key unchanged to the request-count UPDATE |
| Postgres.PostgresRepository.IncrementUsedCount | src/main/java/com/example/urlshortener/database/PostgresRepository.java:55-58 | forwards the key unchanged to the used-count UPDATE |
| Database.UsedCountHandedToSave | src/main/java/com/example/urlshortener/database/DatasbaseService.java:30-32 | the record handed to `save` is the fetched one with its used count increased by Java's `+ 1` (wrapping at the maximum), and absent iff nothing was fetched |
| Database.ReadChangeSave | src/main/java/com/example/urlshortener/database/DatasbaseService.java:29-35 | definition: the read-change-save bump on a table (lookup, `+ 1` on the copy, insert); proved about in `Database.ReadChangeSaveChangesNothing` |
| Database.ReadChangeSaveChangesNothing | src/main/java/com/example/urlshortener/database/DatasbaseService.java:29-35 | on a valid table the read-change-save bump leaves the table unchanged: no save for an unknown code, a rejected save for a known one |
| Database.FetchedRecordSaveConflicts | src/main/java/com/example/urlshortener/database/DatasbaseService.java:29-35 | on a valid table, the record that read-change-save hands to `save` always violates a uniqueness constraint |
| Database.ReadChangeSaveKeepsCounts | src/main/java/com/example/urlshortener/database/DatasbaseService.java:29-35 | the read-change-save bump keeps every record's counts in range on a valid table |
| Database.AtomicUsedCountAddsOne | src/main/java/com/example/urlshortener/database/DatasbaseService.java:29-35 | the atomic UPDATE gives the code's record exactly one more use, keeps the table valid, and leaves every other code's record unchanged |
| Database.DatasbaseService.FindByOriginalUrl | src/main/java/com/example/urlshortener/database/DatasbaseService.java:17-19 | what the repository returns; a present record has the URL |
| Database.DatasbaseService.FindByShortUrl | src/main/java/com/example/urlshortener/database/DatasbaseService.java:21-23 | what the repository returns; a present record has the code |
| Database.DatasbaseService.Save | src/main/java/com/example/urlshortener/database/DatasbaseService.java:25-27 | the repository's insert outcome and new table |
| Database.DatasbaseService.IncrementUsedCount | src/main/java/com/example/urlshortener/database/DatasbaseService.java:29-35 | as written: the outcome and new table are exactly `ReadChangeSave`; it saves the bumped copy iff the code is found, that save is always rejected, and the table never changes |
| Database.DatasbaseService.IncrementUsedCountAtomic | src/main/java/com/example/urlshortener/database/DatasbaseService.java:29-35 | as intended: the used-count UPDATE succeeds iff it does not overflow, and then leaves exactly the bumped table |
| Database.DatasbaseService.IncrementRequestCount | src/main/java/com/example/urlshortener/database/DatasbaseService.java:37-40 | forwards its argument to the request-count UPDATE, which matches it against the short-URL column |
| Persistence.ShortUrlPersistenceService.FindByOriginalUrl | src/main/java/com/example/urlshortener/persistence/ShortUrlPersistenceService.java:17-19 | what the adapter returns; a present record has the URL |
| Persistence.ShortUrlPersistenceService.FindByShortUrl | src/main/java/com/example/urlshortener/persistence/ShortUrlPersistenceService.java:21-23 | what the adapter returns; a present record has the code |
| Persistence.ShortUrlPersistenceService.Save | src/main/java/com/example/urlshortener/persistence/ShortUrlPersistenceService.java:25-27 | the adapter's insert outcome and new table |
| Persistence.ShortUrlPersistenceService.IncrementUsedCount | src/main/java/com/example/urlshortener/persistence/ShortUrlPersistenceService.java:29-35 | read-change-save: the outcome and new table are exactly `Database.ReadChangeSave`; it saves the bumped copy iff found, the save is rejected, and the table never changes |
| Persistence.ShortUrlPersistenceService.IncrementRequestCount | src/main/java/com/example/urlshortener/persistence/ShortUrlPersistenceService.java:37-40 | forwards its argument to the request-count UPDATE keyed by short URL |
| Shortener.DecimalString | src/main/java/com/example/urlshortener/ShortenerService.java:86 | definition: Java's decimal form of the attempt in `originalUrl + attempt`; proved about in `Shortener.HashInputsDistinct` |
| Shortener.HashInput | src/main/java/com/example/urlshortener/ShortenerService.java:86 | definition: the digest input of an attempt; proved about in `Shortener.HashInputsDistinct` |
| Shortener.Candidate | src/main/java/com/example/urlshortener/ShortenerService.java:86-92 | definition: the prefix followed by the encoded digest input; proved about in `Shortener.CandidateShape` |
| Shortener.CandidateShape | src/main/java/com/example/urlshortener/ShortenerService.java:86-92 | every candidate is the prefix followed by eight URL-safe Base64 characters, the encoding of that attempt's digest input |
| Shortener.HashInputsDistinct | src/main/java/com/example/urlshortener/ShortenerService.java:86 | the digest inputs of the five attempts are pairwise distinct |
| Shortener.Free | src/main/java/com/example/urlshortener/ShortenerService.java:94 | definition: `findByShortUrl(shortUrl).isEmpty()`, no row carries the code; proved about in `Shortener.FirstFree` and `Shortener.FirstFreeIsLeast` |
| Shortener.Candidates | src/main/java/com/example/urlshortener/ShortenerService.java:85-98 | definition: the five candidate codes in attempt order; there are exactly `MAX_RETRIES` of them |
| Shortener.FirstFree | src/main/java/com/example/urlshortener/ShortenerService.java:85-98 | the chosen attempt is free and every earlier one is taken; nothing is chosen iff every attempt is taken |
| Shortener.FirstFreeIsLeast | src/main/java/com/example/urlshortener/ShortenerService.java:85-98 | any free attempt preceded only by taken ones is the one chosen |
| Shortener.Chosen | src/main/java/com/example/urlshortener/ShortenerService.java:85-98 | definition: the attempt the loop breaks at, the least free one, or none; proved about in `Shortener.FirstFree`, `Shortener.FirstFreeIsLeast` and `Shortener.ShortenNewUrl` |
| Shortener.Lookups | src/main/java/com/example/urlshortener/ShortenerService.java:94-98 | the loop makes between 1 and 5 lookups: one more than the chosen attempt, or all five |
| Shortener.NewRecord | src/main/java/com/example/urlshortener/ShortenerService.java:105 | definition: `new ShortUrlDto(shortUrl, originalUrl, 1, 0)`; proved about in `Shortener.ShortenNewUrl` |
| Shortener.CreateSpec | src/main/java/com/example/urlshortener/ShortenerService.java:78-113 | definition: outcome and table after `createShortUrl`; proved about in `Shortener.ShortenNewUrl` and `Shortener.CreateStoredUrl`, and met by `Shortener.ShortenerService.CreateShortUrl` |
| Shortener.Fallback | src/main/java/com/example/urlshortener/ShortenerService.java:32-50 | definition: outcome and table after the catch block of `shortenUrl`; proved about in `Shortener.FallbackBumpsRecord` |
| Shortener.ShortenSpec | src/main/java/com/example/urlshortener/ShortenerService.java:28-52 | definition: outcome and table after `shortenUrl`; proved about in `Shortener.ShortenStoredUrl`, `Shortener.ShortenKeepsValid` and the other `Shorten*` lemmas, and met by `Shortener.ShortenerService.ShortenUrl` |
| Shortener.ExactlyOneRecord | src/main/java/com/example/urlshortener/database/ShortUrlEntity.java:12-15 | on a valid table a URL that is found has exactly one record |
| Shortener.ShortenNewUrl | src/main/java/com/example/urlshortener/ShortenerService.java:78-106 | a new URL either fails with the table unchanged (all candidates taken) or gets a new record under the first free candidate with counts 1 and 0, and the table stays valid |
| Shortener.CreateStoredUrl | src/main/java/com/example/urlshortener/ShortenerService.java:94-106 | for a stored URL, `createShortUrl` never inserts: it fails or hits the uniqueness violation, and the table is unchanged |
| Shortener.FallbackBumpsRecord | src/main/java/com/example/urlshortener/ShortenerService.java:36-44 | the fallback is rejected iff the stored request count is at the maximum; otherwise it returns the record with one more request, and the one stored record gains exactly that request |
| Shortener.ShortenStoredUrl | src/main/java/com/example/urlshortener/ShortenerService.java:28-52 | a stored URL yields its existing code with request count one higher and still exactly one record; or fails when no candidate is free or the count is at the maximum |
| Shortener.ShortenKeepsValid | src/main/java/com/example/urlshortener/ShortenerService.java:28-52 | sequentially, the table invariant is kept, and neither a surfaced conflict nor the no-existing-record failure (lines 45-50) ever happens |
| Shortener.ShortenKeepsCounts | src/main/java/com/example/urlshortener/ShortenerService.java:28-52 | shortening keeps every record's counts in range, and a returned record has request count at least 1 and used count at least 0 |
| Shortener.ShortenOnlyGrows | src/main/java/com/example/urlshortener/ShortenerService.java:28-52 | shortening adds at most one row; ids, keys and used counts are unchanged; a request count rises by at most one |
| Shortener.ShortenTwice | src/main/java/com/example/urlshortener/ShortenerService.java:28-52 | shortening a new URL twice returns the same code with request count 2 and one record, unless the second loop finds no free candidate |
| Shortener.UsesAsWritten | src/main/java/com/example/urlshortener/ShortenerService.java:55-60 | definition: the table after `n` calls of `incrementUsedCount` as written; proved about in `Shortener.UsesAsWrittenChangeNothing` |
| Shortener.UsesAsWrittenChangeNothing | src/main/java/com/example/urlshortener/ShortenerService.java:55-60 | on a valid table, any number of used-count bumps as written leave the table unchanged |
| Shortener.ShortenThenUseAsWritten | src/main/java/com/example/urlshortener/ShortenerService.java:55-67 | after shortening a new URL and using its code `n` times as written, the code's record still has request count 1 and used count 0 |
| Shortener.Uses | src/main/java/com/example/urlshortener/database/DatasbaseService.java:29-35 | corrected half of the finding: the table after `n` intended (atomic) used-count bumps; proved about in `Shortener.UsesAddUp` |
| Shortener.UsesAddUp | src/main/java/com/example/urlshortener/database/DatasbaseService.java:29-35 | corrected half of the finding: `n` intended bumps on a stored code add exactly `n` to its used count and keep the table valid |
| Shortener.ShortenThenUse | src/main/java/com/example/urlshortener/database/DatasbaseService.java:29-35 | corrected half of the finding: after shortening a new URL and `n` intended bumps, the code's record has request count 1 and used count `n` |
| Shortener.PrefixedCodes | src/main/java/com/example/urlshortener/ShortenerService.java:92 | definition: every stored short URL is the prefix followed by an 8-character code body; proved about in `Shortener.RedirectBareCodeMisses` |
| Shortener.RedirectBareCodeMisses | src/main/java/com/example/urlshortener/api/ShortenerController.java:43-50 | after shortening under the default prefix `short.ly/`, the redirect's lookup of prefix plus code finds the record, while the bare code it hands to `incrementUsedCount` matches no row, so neither the as-written nor the atomic bump changes the table |
| Shortener.ShortenerService.ShortenUrl | src/main/java/com/example/urlshortener/ShortenerService.java:28-52 | result and new table are exactly `ShortenSpec` of the old table; the invariant is kept |
| Shortener.ShortenerService.CreateShortUrl | src/main/java/com/example/urlshortener/ShortenerService.java:78-113 | the candidate loop and insert give exactly `CreateSpec` of the old table, after exactly `Lookups` short-URL lookups |
| Shortener.ShortenerService.IncrementUsedCount | src/main/java/com/example/urlshortener/ShortenerService.java:55-60 | as written: forwards to the read-change-save bump; the outcome and new table are exactly `Database.ReadChangeSave`, a stored code's save is rejected, and the table never changes |
| Shortener.ShortenerService.IncrementUsedCountAtomic | src/main/java/com/example/urlshortener/database/DatasbaseService.java:29-35 | corrected half of the finding: succeeds iff the used-count UPDATE does not overflow, and then leaves exactly the bumped table; otherwise nothing changes |
| Shortener.ShortenerService.GetStatistics | src/main/java/com/example/urlshortener/ShortenerService.java:62-67 | the record of the code (all four fields) iff one is stored, otherwise nothing (`null`) |
| Shortener.ShortenerService.GetOriginalUrl | src/main/java/com/example/urlshortener/ShortenerService.java:69-74 | the original URL stored for the code iff one is stored |

## Left out

- HTTP controllers: request validation, status codes and the redirect response are not part of this model. Their calls into the service are not plain delegation. The redirect handlers look the record up by prefix plus code (api/ShortenerController.java:44, ShortenerController.java:29), but pass the bare code to `incrementUsedCount` (api/ShortenerController.java:50, ShortenerController.java:34). The used-count bump therefore finds no row and does nothing, a second reason, independent of the Findings row, why a redirect never raises the used count. `Shortener.RedirectBareCodeMisses` states this for the modelled table. The statistics handlers pass prefix plus code and are consistent with the service.
- The duplicate `api` DTO and the `UrlRepository` interfaces: not part of this model. They add no behaviour.
- SHA-256 and Base64: these library calls are the parameter `encode`, an arbitrary function. `Shortener.IsEncoder` says its results are eight characters of the URL-safe alphabet of section 5 of RFC 4648. Digest collisions are therefore not excluded.
- `MessageDigest.getInstance` failing (the call at ShortenerService.java:80, whose exception ShortenerService.java:109-111 would wrap): not modelled, since SHA-256 is always available.
- The `@Value` prefix configuration: it is the constructor parameter `baseUrl`. `Shortener.DefaultPrefix` is the default (ShortenerService.java:20), used by `Shortener.RedirectBareCodeMisses`.
- Logging and Spring wiring: not modelled, since they change no state.
- Concurrency, transactions and visibility between concurrent callers: not modelled. Every result is about one call at a time.
- Column lengths and other schema limits: not modelled. Text columns are unbounded, and the only insert failures are the two uniqueness constraints. `Shortener.ShortenKeepsValid` rests on that assumption. `originalUrl` has no `@Column` (ShortUrlEntity.java:23), so a generated schema may default it to `varchar(255)`. Then a longer URL fails its insert with a data exception while no record exists, and the call ends at ShortenerService.java:45-50 even in a sequential run. With unbounded columns, a conflict on the short-URL constraint and the no-existing-record failure can occur only under interleaving.
- Store I/O failures (connectivity, timeouts): not modelled. A failure in the candidate lookups (ShortenerService.java:94) or the insert (ShortenerService.java:106) is not a `DataIntegrityViolationException`. The generic catch at ShortenerService.java:109-111 therefore wraps it as "Could not generate short code", the same message as the exhausted loop. A failure in the fallback (ShortenerService.java:36, 39), in the read paths or in `incrementUsedCount` propagates unchanged.
- `JpaRepository.save` of an entity that already has an id (a merge or update): not modelled. Every caller passes a freshly mapped entity without id, so `Jpa.JpaShortUrlRepository.Save` requires `id` to be absent.
- Identity values: modelled as positions 1, 2, 3, …. The model does not capture that a rejected insert may consume a sequence value. The core never reads ids.
- `int` column overflow: the SQL `UPDATE` is modelled as rejected with nothing changed, which `shortenUrl` surfaces as `CounterOutOfRange`. It is not modelled as a specific database exception type.
- The `database`-package `JpaShortUrlRepository` used by `PostgresRepository` (PostgresRepository.java:13, same package, no import) is not part of this model. `Jpa.JpaShortUrlRepository` follows persistence/JpaShortUrlRepository.java in its place, together with the `database`-package entity ShortUrlEntity.java.
- `ShortUrlRepositoryAdapter` is not part of this model. `Persistence.ShortUrlPersistenceService` runs over `Postgres.PostgresRepository` in its place, which is how the adapter's tests describe it.
- Persistence.ShortUrlPersistenceService.IncrementUsedCount: modelled only as written. The corrected atomic bump is given for `Database.DatasbaseService`, the copy the orchestrator uses.

## Findings

| source | as written | input that shows it | evidently intended | confidence | as-written member | corrected member |
|---|---|---|---|---|---|---|
| src/main/java/com/example/urlshortener/database/DatasbaseService.java:29-35 | `incrementUsedCount` fetches the record, bumps the copy's used count and calls `repository.save`. `PostgresRepository.save` maps it to an entity without id, so the save is an insert carrying the same short and original URL as the row just read. | any stored code, e.g. after `shortenUrl("https://example.com")`, then `incrementUsedCount` of its code: the insert violates both uniqueness constraints and the used count stays 0. The input is the full stored code handed to the service directly; the shipped redirect handlers hand over the bare code, which misses the lookup first (see "## Left out") | one atomic UPDATE adding 1 to the used count of the code's row, which `JpaShortUrlRepository.incrementUsedCount` provides | not executed | Database.DatasbaseService.IncrementUsedCount, Database.FetchedRecordSaveConflicts, Database.ReadChangeSaveChangesNothing, Shortener.ShortenerService.IncrementUsedCount, Shortener.ShortenThenUseAsWritten | Database.DatasbaseService.IncrementUsedCountAtomic, Database.AtomicUsedCountAddsOne, Shortener.ShortenerService.IncrementUsedCountAtomic, Shortener.UsesAddUp, Shortener.ShortenThenUse |
