/** The shorten / deduplicate orchestrator: derives salted candidate codes,
    picks the first one not yet taken, inserts a new record, and on a
    uniqueness violation falls back to the record already stored for the URL. */
module Shortener {
  import opened Records
  import Table
  import Postgres
  import Database

  /** At most this many candidate codes are tried. */
  const MaxRetries: nat := 5

  /** The prefix configured by default. */
  const DefaultPrefix: string := "short.ly/"

  /** A character of the URL- and filename-safe Base64 alphabet of section 5 of RFC 4648. */
  predicate IsUrlSafeChar(c: char)
  {
    ('A' <= c <= 'Z') || ('a' <= c <= 'z') || ('0' <= c <= '9') || c == '-' || c == '_'
  }

  /** A code body: eight characters of the URL-safe alphabet. */
  predicate IsCodeBody(b: string)
  {
    |b| == 8 && forall i :: 0 <= i < |b| ==> IsUrlSafeChar(b[i])
  }

  /** SHA-256 of the UTF-8 input, encoded as unpadded URL-safe Base64, cut to its
      first eight characters. The digest and the encoding are library calls and
      stay abstract: any deterministic function. */
  type Encoder = string -> string

  /** An encoder in the sense above: every result is a code body. */
  ghost predicate IsEncoder(encode: Encoder)
  {
    forall s :: IsCodeBody(encode(s))
  }

  /** Java's decimal form of a non-negative `int`. */
  function DecimalString(n: nat): (r: string)
    ensures |r| >= 1
  {
    if n < 10 then ["0123456789"[n]] else DecimalString(n / 10) + ["0123456789"[n % 10]]
  }

  /** The digest input of attempt `attempt`: the URL itself first, then the URL
      followed by the attempt number. */
  function HashInput(url: string, attempt: nat): string
  {
    if attempt == 0 then url else url + DecimalString(attempt)
  }

  /** The candidate code of attempt `attempt`: the prefix followed by an 8-character body. */
  function Candidate(prefix: string, encode: Encoder, url: string, attempt: nat): string
  {
    prefix + encode(HashInput(url, attempt))
  }

  /** Every candidate is the prefix followed by an 8-character URL-safe body, the
      encoding of that attempt's digest input. */
  lemma CandidateShape(prefix: string, encode: Encoder, url: string, attempt: nat)
    requires IsEncoder(encode)
    ensures var code := Candidate(prefix, encode, url, attempt);
      && |code| == |prefix| + 8
      && code[..|prefix|] == prefix && IsCodeBody(code[|prefix|..])
      && code[|prefix|..] == encode(HashInput(url, attempt))
  {
    var code := Candidate(prefix, encode, url, attempt);
    assert code[|prefix|..] == encode(HashInput(url, attempt));
  }

  /** The digest inputs of the attempts are pairwise distinct, so distinct candidates
      are only as unlikely to collide as the digest itself. */
  lemma HashInputsDistinct(url: string, i: nat, j: nat)
    requires i < j < MaxRetries
    ensures HashInput(url, i) != HashInput(url, j)
  {
    assert DecimalString(j) == ["0123456789"[j]];
    if i == 0 {
      assert |HashInput(url, j)| == |url| + 1;
    } else {
      assert DecimalString(i) == ["0123456789"[i]];
      assert HashInput(url, i)[|url|] != HashInput(url, j)[|url|];
    }
  }

  /** A code is free when no stored row carries it as its short URL: the
      `findByShortUrl(shortUrl).isEmpty()` test of the candidate loop, written
      over the rows (equivalent to `Table.Find(rows, ShortUrlColumn, code).None?`). */
  predicate Free(rows: seq<Entity>, code: string)
  {
    forall i :: 0 <= i < |rows| ==> rows[i].shortUrl != code
  }

  /** The candidate codes of all attempts, in order. */
  function Candidates(prefix: string, encode: Encoder, url: string): (codes: seq<string>)
    ensures |codes| == MaxRetries
  {
    seq(MaxRetries, k requires 0 <= k => Candidate(prefix, encode, url, k))
  }

  /** The least attempt `k` with `from <= k < |codes|` whose code is free. */
  function FirstFree(rows: seq<Entity>, codes: seq<string>, from: nat): (r: Option<nat>)
    decreases |codes| - from
    ensures r.Some? ==> from <= r.value < |codes| && Free(rows, codes[r.value])
    ensures r.Some? ==> forall j :: from <= j < r.value ==> !Free(rows, codes[j])
    ensures r.None? <==> forall j :: from <= j < |codes| ==> !Free(rows, codes[j])
  {
    if from >= |codes| then None
    else if Free(rows, codes[from]) then Some(from)
    else FirstFree(rows, codes, from + 1)
  }

  /** `FirstFree` picks exactly the least free attempt: any free attempt `k` with
      all attempts from `from` to `k` taken is the one it returns. */
  lemma {:induction false} FirstFreeIsLeast(rows: seq<Entity>, codes: seq<string>, from: nat, k: nat)
    requires from <= k < |codes| && Free(rows, codes[k])
    requires forall j :: from <= j < k ==> !Free(rows, codes[j])
    ensures FirstFree(rows, codes, from) == Some(k)
    decreases k - from
  {
    if from < k {
      FirstFreeIsLeast(rows, codes, from + 1, k);
    }
  }

  /** The attempt the candidate loop settles on for `url`. */
  function Chosen(rows: seq<Entity>, prefix: string, encode: Encoder, url: string): Option<nat>
  {
    FirstFree(rows, Candidates(prefix, encode, url), 0)
  }

  /** How many short-URL lookups the candidate loop makes. */
  function Lookups(rows: seq<Entity>, prefix: string, encode: Encoder, url: string): (n: nat)
    ensures 1 <= n <= MaxRetries
    ensures Chosen(rows, prefix, encode, url).Some? ==> n == Chosen(rows, prefix, encode, url).value + 1
    ensures Chosen(rows, prefix, encode, url).None? ==> n == MaxRetries
  {
    match Chosen(rows, prefix, encode, url)
    case Some(k) => k + 1
    case None => MaxRetries
  }

  /** Outcomes of a shortening request. `Conflict` is the uniqueness violation
      raised by the insert (only `createShortUrl` returns it), `GenerateFailed`
      the exhausted candidate loop, `NoExistingRecord` a conflict with no record
      stored for the URL, `CounterOutOfRange` the database rejecting the
      request-count UPDATE of a counter at the `int` maximum. */
  datatype Outcome = Ok(record: ShortUrl) | Conflict | GenerateFailed | NoExistingRecord | CounterOutOfRange

  /** The first new record of `url` under code `code`. */
  function NewRecord(code: string, url: string): ShortUrl
  {
    ShortUrl(code, url, 1, 0)
  }

  /** What `createShortUrl` returns and leaves in the table. */
  function CreateSpec(rows: seq<Entity>, prefix: string, encode: Encoder, url: string): (Outcome, seq<Entity>)
  {
    match Chosen(rows, prefix, encode, url)
    case None => (GenerateFailed, rows)
    case Some(k) =>
      var e := Postgres.MapToEntity(NewRecord(Candidate(prefix, encode, url, k), url));
      if Table.Conflicts(rows, e) then (Conflict, rows)
      else (Ok(NewRecord(Candidate(prefix, encode, url, k), url)), rows + [Table.Stored(rows, e)])
  }

  /** The fallback of `shortenUrl` after a uniqueness violation: the record stored
      for `url` with its request count bumped in place, keyed by its short URL. */
  function Fallback(rows: seq<Entity>, url: string): (Outcome, seq<Entity>)
  {
    match Postgres.MapFound(Table.Find(rows, OriginalUrlColumn, url))
    case None => (NoExistingRecord, rows)
    case Some(existing) =>
      if Table.Overflows(rows, existing.shortUrl, RequestCounter) then (CounterOutOfRange, rows)
      else (Ok(existing.(requestCount := JavaInc(existing.requestCount))),
            Table.Bumped(rows, existing.shortUrl, RequestCounter))
  }

  /** What `shortenUrl` returns and leaves in the table. */
  function ShortenSpec(rows: seq<Entity>, prefix: string, encode: Encoder, url: string): (Outcome, seq<Entity>)
  {
    var (created, rows1) := CreateSpec(rows, prefix, encode, url);
    if created.Conflict? then Fallback(rows1, url) else (created, rows1)
  }

  /** The indices of the rows stored for `url`. */
  ghost function RecordsFor(rows: seq<Entity>, url: string): set<nat>
  {
    set i: nat | i < |rows| && rows[i].originalUrl == url
  }

  /** On a valid table a URL that is found has exactly one record. */
  lemma ExactlyOneRecord(rows: seq<Entity>, url: string)
    requires Table.Valid(rows) && Table.Find(rows, OriginalUrlColumn, url).Some?
    ensures |RecordsFor(rows, url)| == 1
  {
    var e := Table.Find(rows, OriginalUrlColumn, url).value;
    var i :| 0 <= i < |rows| && rows[i] == e;
    assert RecordsFor(rows, url) == {i} by {
      forall j | j in RecordsFor(rows, url) ensures j == i {
        assert ColumnValue(rows[j], OriginalUrlColumn) == ColumnValue(rows[i], OriginalUrlColumn);
      }
    }
  }

  /** Shortening a URL that has no record: if all five candidates are taken the
      call fails and stores nothing; otherwise it stores and returns the new
      record under the first free candidate, with request count 1 and used count 0. */
  lemma ShortenNewUrl(rows: seq<Entity>, prefix: string, encode: Encoder, url: string)
    requires Table.Valid(rows) && Table.Find(rows, OriginalUrlColumn, url).None?
    ensures Chosen(rows, prefix, encode, url).None? ==>
      ShortenSpec(rows, prefix, encode, url) == (GenerateFailed, rows)
    ensures Chosen(rows, prefix, encode, url).Some? ==>
      var code := Candidate(prefix, encode, url, Chosen(rows, prefix, encode, url).value);
      && ShortenSpec(rows, prefix, encode, url)
           == (Ok(ShortUrl(code, url, 1, 0)), rows + [Entity(Some(|rows| + 1), url, code, 1, 0)])
      && Table.Valid(rows + [Entity(Some(|rows| + 1), url, code, 1, 0)])
  {
    if Chosen(rows, prefix, encode, url).Some? {
      var code := Candidate(prefix, encode, url, Chosen(rows, prefix, encode, url).value);
      var e := Postgres.MapToEntity(NewRecord(code, url));
      assert !Table.Conflicts(rows, e);
      Table.InsertKeepsValid(rows, e);
    }
  }

  /** For a URL that already has a record the insert of `createShortUrl` can never
      succeed: either no candidate is free, or the original-URL constraint
      rejects the new record. Either way the table is unchanged. */
  lemma CreateStoredUrl(rows: seq<Entity>, prefix: string, encode: Encoder, url: string)
    requires Table.Find(rows, OriginalUrlColumn, url).Some?
    ensures Chosen(rows, prefix, encode, url).None? ==> CreateSpec(rows, prefix, encode, url) == (GenerateFailed, rows)
    ensures Chosen(rows, prefix, encode, url).Some? ==> CreateSpec(rows, prefix, encode, url) == (Conflict, rows)
  {
  }

  /** The fallback on a valid table that stores record `e` for `url`: the
      request-count UPDATE is rejected exactly when the count is at the `int`
      maximum; otherwise the call returns `e` with one more request, and the
      table stays valid and holds exactly one record for `url`, that same one. */
  lemma FallbackBumpsRecord(rows: seq<Entity>, url: string, e: Entity)
    requires Table.Valid(rows) && Table.Find(rows, OriginalUrlColumn, url) == Some(e)
    ensures Table.Overflows(rows, e.shortUrl, RequestCounter) <==> e.requestCount == IntMax
    ensures e.requestCount == IntMax ==> Fallback(rows, url) == (CounterOutOfRange, rows)
    ensures e.requestCount < IntMax ==>
      var (r, rows') := Fallback(rows, url);
      && r == Ok(ShortUrl(e.shortUrl, url, e.requestCount + 1, e.usedCount))
      && rows' == Table.Bumped(rows, e.shortUrl, RequestCounter)
      && Table.Valid(rows')
      && Table.Find(rows', OriginalUrlColumn, url) == Some(e.(requestCount := e.requestCount + 1))
      && |RecordsFor(rows', url)| == 1
  {
    var i :| 0 <= i < |rows| && rows[i] == e;
    Table.FindUnique(rows, ShortUrlColumn, i);
    Table.OverflowsFound(rows, e.shortUrl, RequestCounter);
    if e.requestCount < IntMax {
      JavaIncBelowMax(e.requestCount);
      var rows' := Table.Bumped(rows, e.shortUrl, RequestCounter);
      Table.BumpKeepsValid(rows, e.shortUrl, RequestCounter);
      Table.BumpedRows(rows, e.shortUrl, RequestCounter, i);
      assert rows'[i] == e.(requestCount := e.requestCount + 1);
      Table.FindUnique(rows', OriginalUrlColumn, i);
      ExactlyOneRecord(rows', url);
    }
  }

  /** Shortening a URL that already has record `e`: the candidate loop runs as
      usual; if it finds a free code, the insert is rejected by the original-URL
      constraint and the call bumps the request count of `e` (keyed by its short
      URL) and returns `e` with request count one higher; otherwise it fails. The
      table keeps exactly one record for the URL. */
  lemma ShortenStoredUrl(rows: seq<Entity>, prefix: string, encode: Encoder, url: string, e: Entity)
    requires Table.Valid(rows) && Table.Find(rows, OriginalUrlColumn, url) == Some(e)
    ensures Chosen(rows, prefix, encode, url).None? ==>
      ShortenSpec(rows, prefix, encode, url) == (GenerateFailed, rows)
    ensures Chosen(rows, prefix, encode, url).Some? && e.requestCount == IntMax ==>
      ShortenSpec(rows, prefix, encode, url) == (CounterOutOfRange, rows)
    ensures Chosen(rows, prefix, encode, url).Some? && e.requestCount < IntMax ==>
      var (r, rows') := ShortenSpec(rows, prefix, encode, url);
      && r == Ok(ShortUrl(e.shortUrl, url, e.requestCount + 1, e.usedCount))
      && !Table.Overflows(rows, e.shortUrl, RequestCounter)
      && rows' == Table.Bumped(rows, e.shortUrl, RequestCounter)
      && Table.Valid(rows')
      && Table.Find(rows', OriginalUrlColumn, url) == Some(e.(requestCount := e.requestCount + 1))
      && |RecordsFor(rows', url)| == 1
  {
    CreateStoredUrl(rows, prefix, encode, url);
    FallbackBumpsRecord(rows, url, e);
  }

  /** In a sequential run the fallback always finds the record: a conflict
      never surfaces from `shortenUrl` and `NoExistingRecord` never happens, and
      the table invariant is kept. */
  lemma ShortenKeepsValid(rows: seq<Entity>, prefix: string, encode: Encoder, url: string)
    requires Table.Valid(rows)
    ensures Table.Valid(ShortenSpec(rows, prefix, encode, url).1)
    ensures ShortenSpec(rows, prefix, encode, url).0 !in {Conflict, NoExistingRecord}
  {
    match Table.Find(rows, OriginalUrlColumn, url)
    case None => ShortenNewUrl(rows, prefix, encode, url);
    case Some(e) => ShortenStoredUrl(rows, prefix, encode, url, e);
  }

  /** Shortening keeps every record's counts in range, and a returned record is
      in range too: a new one starts at request count 1 and used count 0, and
      the fallback only raises the request count of a stored one. */
  lemma ShortenKeepsCounts(rows: seq<Entity>, prefix: string, encode: Encoder, url: string)
    requires Table.Valid(rows) && Table.CountsInRange(rows)
    ensures Table.CountsInRange(ShortenSpec(rows, prefix, encode, url).1)
    ensures var r := ShortenSpec(rows, prefix, encode, url).0;
      r.Ok? ==> r.record.requestCount >= 1 && r.record.usedCount >= 0
  {
    match Table.Find(rows, OriginalUrlColumn, url)
    case None =>
      ShortenNewUrl(rows, prefix, encode, url);
    case Some(e) =>
      ShortenStoredUrl(rows, prefix, encode, url, e);
      var i :| 0 <= i < |rows| && rows[i] == e;
      if Chosen(rows, prefix, encode, url).Some? && e.requestCount < IntMax {
        Table.BumpKeepsCounts(rows, e.shortUrl, RequestCounter);
      }
  }

  /** Shortening only ever adds at most one row, never changes a key or a used
      count, and raises a request count by at most one. */
  lemma ShortenOnlyGrows(rows: seq<Entity>, prefix: string, encode: Encoder, url: string, i: nat)
    requires Table.Valid(rows) && i < |rows|
    ensures var rows' := ShortenSpec(rows, prefix, encode, url).1;
      && |rows| <= |rows'| <= |rows| + 1
      && rows'[i].id == rows[i].id && rows'[i].shortUrl == rows[i].shortUrl
      && rows'[i].originalUrl == rows[i].originalUrl && rows'[i].usedCount == rows[i].usedCount
      && rows[i].requestCount <= rows'[i].requestCount <= rows[i].requestCount + 1
  {
    match Table.Find(rows, OriginalUrlColumn, url)
    case None =>
      ShortenNewUrl(rows, prefix, encode, url);
    case Some(e) =>
      ShortenStoredUrl(rows, prefix, encode, url, e);
      if Chosen(rows, prefix, encode, url).Some? && e.requestCount < IntMax {
        Table.BumpedRows(rows, e.shortUrl, RequestCounter, i);
      }
  }

  /** Shortening a new URL twice in a row: the second call returns the same short
      URL with request count 2 and leaves one record for the URL, provided the
      candidate loop finds some free code; otherwise the second call fails. */
  lemma ShortenTwice(rows: seq<Entity>, prefix: string, encode: Encoder, url: string)
    requires Table.Valid(rows) && Table.Find(rows, OriginalUrlColumn, url).None?
    ensures var (first, rows1) := ShortenSpec(rows, prefix, encode, url);
      var (second, rows2) := ShortenSpec(rows1, prefix, encode, url);
      first.Ok? ==>
        && first.record.requestCount == 1
        && (Chosen(rows1, prefix, encode, url).None? ==> second == GenerateFailed && rows2 == rows1)
        && (Chosen(rows1, prefix, encode, url).Some? ==>
              && second == Ok(first.record.(requestCount := 2))
              && |RecordsFor(rows2, url)| == 1)
  {
    ShortenNewUrl(rows, prefix, encode, url);
    var (first, rows1) := ShortenSpec(rows, prefix, encode, url);
    if first.Ok? {
      var code := first.record.shortUrl;
      var e := Entity(Some(|rows| + 1), url, code, 1, 0);
      assert rows1 == rows + [e];
      Table.FindUnique(rows1, OriginalUrlColumn, |rows|);
      ShortenStoredUrl(rows1, prefix, encode, url, e);
    }
  }

  /** The table after `n` calls of `incrementUsedCount(k)` in a row, as written:
      each call is the read-change-save bump. */
  function UsesAsWritten(rows: seq<Entity>, k: string, n: nat): seq<Entity>
    decreases n
  {
    if n == 0 then rows else UsesAsWritten(Database.ReadChangeSave(rows, k).1, k, n - 1)
  }

  /** On a valid table any number of read-change-save bumps leaves it unchanged. */
  lemma {:induction false} UsesAsWrittenChangeNothing(rows: seq<Entity>, k: string, n: nat)
    requires Table.Valid(rows)
    ensures UsesAsWritten(rows, k, n) == rows
    decreases n
  {
    if n > 0 {
      Database.ReadChangeSaveChangesNothing(rows, k);
      UsesAsWrittenChangeNothing(rows, k, n - 1);
    }
  }

  /** Shortening a new URL and then using its code `n` times as written: the
      statistics of the code still show request count 1 and used count 0. */
  lemma ShortenThenUseAsWritten(rows: seq<Entity>, prefix: string, encode: Encoder, url: string, n: nat)
    requires Table.Valid(rows) && Table.Find(rows, OriginalUrlColumn, url).None?
    ensures var (first, rows1) := ShortenSpec(rows, prefix, encode, url);
      first.Ok? ==>
        Table.Find(UsesAsWritten(rows1, first.record.shortUrl, n), ShortUrlColumn, first.record.shortUrl)
          == Some(Entity(Some(|rows| + 1), url, first.record.shortUrl, 1, 0))
  {
    ShortenNewUrl(rows, prefix, encode, url);
    var (first, rows1) := ShortenSpec(rows, prefix, encode, url);
    if first.Ok? {
      var code := first.record.shortUrl;
      assert rows1 == rows + [Entity(Some(|rows| + 1), url, code, 1, 0)];
      UsesAsWrittenChangeNothing(rows1, code, n);
      Table.FindUnique(rows1, ShortUrlColumn, |rows|);
    }
  }

  /** The table after `n` calls of the intended used-count bump on `k`: each call
      is the atomic UPDATE, and once one is rejected at the `int` maximum every
      later one is rejected too. */
  function Uses(rows: seq<Entity>, k: string, n: nat): seq<Entity>
    decreases n
  {
    if n == 0 || Table.Overflows(rows, k, UsedCounter) then rows
    else Uses(Table.Bumped(rows, k, UsedCounter), k, n - 1)
  }

  /** `n` uses of the code of row `i` add exactly `n` to its used count (as long
      as the count stays within `int`), keep every row in place and keep the
      table valid. */
  lemma {:induction false} UsesAddUp(rows: seq<Entity>, i: nat, n: nat)
    requires Table.Valid(rows) && i < |rows|
    requires rows[i].usedCount + n <= IntMax
    ensures var rows' := Uses(rows, rows[i].shortUrl, n);
      && Table.Valid(rows') && |rows'| == |rows|
      && rows'[i] == rows[i].(usedCount := rows[i].usedCount + n)
    decreases n
  {
    var k := rows[i].shortUrl;
    if n == 0 {
      assert rows[i].(usedCount := rows[i].usedCount + n) == rows[i];
    } else {
      assert !Table.Overflows(rows, k, UsedCounter) by {
        forall j | 0 <= j < |rows| && rows[j].shortUrl == k ensures j == i {
          assert ColumnValue(rows[j], ShortUrlColumn) == ColumnValue(rows[i], ShortUrlColumn);
        }
      }
      var rows' := Table.Bumped(rows, k, UsedCounter);
      Table.BumpKeepsValid(rows, k, UsedCounter);
      Table.BumpedRows(rows, k, UsedCounter, i);
      assert rows'[i] == rows[i].(usedCount := rows[i].usedCount + 1);
      UsesAddUp(rows', i, n - 1);
    }
  }

  /** Shortening a new URL and then using its code `n` times with the intended
      bump: the statistics of the code show request count 1 and used count `n`. */
  lemma ShortenThenUse(rows: seq<Entity>, prefix: string, encode: Encoder, url: string, n: nat)
    requires Table.Valid(rows) && Table.Find(rows, OriginalUrlColumn, url).None?
    requires n <= IntMax
    ensures var (first, rows1) := ShortenSpec(rows, prefix, encode, url);
      first.Ok? ==>
        Table.Find(Uses(rows1, first.record.shortUrl, n), ShortUrlColumn, first.record.shortUrl)
          == Some(Entity(Some(|rows| + 1), url, first.record.shortUrl, 1, n))
  {
    ShortenNewUrl(rows, prefix, encode, url);
    var (first, rows1) := ShortenSpec(rows, prefix, encode, url);
    if first.Ok? {
      var code := first.record.shortUrl;
      var e := Entity(Some(|rows| + 1), url, code, 1, 0);
      assert rows1 == rows + [e];
      UsesAddUp(rows1, |rows|, n);
      var rows2 := Uses(rows1, code, n);
      assert rows2[|rows|] == Entity(Some(|rows| + 1), url, code, 1, n);
      Table.FindUnique(rows2, ShortUrlColumn, |rows|);
    }
  }

  /** Every stored short URL is `prefix` followed by an 8-character code body,
      as `createShortUrl` makes them. */
  predicate PrefixedCodes(rows: seq<Entity>, prefix: string)
  {
    forall i :: 0 <= i < |rows| ==>
      |rows[i].shortUrl| == |prefix| + 8 && rows[i].shortUrl[..|prefix|] == prefix
      && IsCodeBody(rows[i].shortUrl[|prefix|..])
  }

  /** The redirect endpoints resolve `DefaultPrefix + code` but pass the bare
      `code` to `incrementUsedCount`. After a new URL is shortened under the
      default prefix, the lookup finds its record while the bare code matches
      no row: neither the read-change-save bump nor the atomic UPDATE changes
      anything, and the table keeps the prefixed shape. */
  lemma RedirectBareCodeMisses(rows: seq<Entity>, encode: Encoder, url: string)
    requires Table.Valid(rows) && Table.Find(rows, OriginalUrlColumn, url).None?
    requires IsEncoder(encode) && PrefixedCodes(rows, DefaultPrefix)
    ensures var (first, rows1) := ShortenSpec(rows, DefaultPrefix, encode, url);
      first.Ok? ==>
        var code := first.record.shortUrl[|DefaultPrefix|..];
        && first.record.shortUrl == DefaultPrefix + code
        && PrefixedCodes(rows1, DefaultPrefix)
        && Table.Find(rows1, ShortUrlColumn, DefaultPrefix + code)
             == Some(Entity(Some(|rows| + 1), url, DefaultPrefix + code, 1, 0))
        && Table.Find(rows1, ShortUrlColumn, code).None?
        && Database.ReadChangeSave(rows1, code) == (None, rows1)
        && !Table.Overflows(rows1, code, UsedCounter) && Table.Bumped(rows1, code, UsedCounter) == rows1
  {
    ShortenNewUrl(rows, DefaultPrefix, encode, url);
    var (first, rows1) := ShortenSpec(rows, DefaultPrefix, encode, url);
    if first.Ok? {
      var k := Chosen(rows, DefaultPrefix, encode, url).value;
      var full := Candidate(DefaultPrefix, encode, url, k);
      CandidateShape(DefaultPrefix, encode, url, k);
      assert full == DefaultPrefix + full[|DefaultPrefix|..];
      var code := full[|DefaultPrefix|..];
      assert rows1 == rows + [Entity(Some(|rows| + 1), url, full, 1, 0)];
      Table.FindUnique(rows1, ShortUrlColumn, |rows|);
      assert Table.Find(rows1, ShortUrlColumn, code).None? by {
        forall i | 0 <= i < |rows1| ensures ColumnValue(rows1[i], ShortUrlColumn) != code {
          assert |rows1[i].shortUrl| == |DefaultPrefix| + 8;
        }
      }
      Database.ReadChangeSaveChangesNothing(rows1, code);
      Table.BumpMissingKey(rows1, code, UsedCounter);
    }
  }

  class ShortenerService {
    const datasbaseService: Database.DatasbaseService
    /** The configured prefix of every short URL. */
    const baseUrl: string
    /** The digest-and-encode step that produces code bodies. */
    const encode: Encoder

    ghost predicate Valid()
      reads datasbaseService.repository.jpaRepository
    {
      datasbaseService.Valid() && IsEncoder(encode)
    }

    /** The rows of the table behind the service layer. */
    ghost function Rows(): seq<Entity>
      reads datasbaseService.repository.jpaRepository
    {
      datasbaseService.repository.jpaRepository.rows
    }

    constructor (datasbaseService: Database.DatasbaseService, baseUrl: string, encode: Encoder)
      requires datasbaseService.Valid() && IsEncoder(encode)
      ensures this.datasbaseService == datasbaseService && this.baseUrl == baseUrl && this.encode == encode
      ensures Valid()
    {
      this.datasbaseService := datasbaseService;
      this.baseUrl := baseUrl;
      this.encode := encode;
    }

    /** `shortenUrl`: optimistic create, falling back to the stored record on a
        uniqueness violation. */
    method ShortenUrl(originalUrl: string) returns (r: Outcome)
      requires Valid()
      modifies datasbaseService.repository.jpaRepository
      ensures Valid()
      ensures (r, Rows()) == ShortenSpec(old(Rows()), baseUrl, encode, originalUrl)
    {
      ghost var lookups;
      var created;
      created, lookups := CreateShortUrl(originalUrl);
      if !created.Conflict? {
        return created;
      }
      var existingEntryOpt := datasbaseService.FindByOriginalUrl(originalUrl);
      if existingEntryOpt.None? {
        return NoExistingRecord;
      }
      var existing := existingEntryOpt.value;
      var ok := datasbaseService.IncrementRequestCount(existing.shortUrl);
      if !ok {
        return CounterOutOfRange;
      }
      r := Ok(ShortUrl(existing.shortUrl, existing.originalUrl, JavaInc(existing.requestCount), existing.usedCount));
    }

    /** `incrementUsedCount`: forwards the key unchanged to the service layer's
        read-change-save bump. For a stored code the save is rejected (the
        exception that leaves the call), and the table never changes. */
    method IncrementUsedCount(shortUrl: string) returns (saved: Option<SaveResult<ShortUrl>>)
      requires Valid()
      modifies datasbaseService.repository.jpaRepository
      ensures Valid()
      ensures (saved, Rows()) == Database.ReadChangeSave(old(Rows()), shortUrl)
      ensures saved.Some? ==> saved == Some(UniqueViolation)
      ensures Rows() == old(Rows())
    {
      var handed;
      handed, saved := datasbaseService.IncrementUsedCount(shortUrl);
    }

    /** The used-count bump as evidently intended: forwards the key to the
        service layer's atomic UPDATE (see `Database.FetchedRecordSaveConflicts`). */
    method IncrementUsedCountAtomic(shortUrl: string) returns (ok: bool)
      requires Valid()
      modifies datasbaseService.repository.jpaRepository
      ensures Valid()
      ensures ok <==> !Table.Overflows(old(Rows()), shortUrl, UsedCounter)
      ensures ok ==> Rows() == Table.Bumped(old(Rows()), shortUrl, UsedCounter)
      ensures !ok ==> Rows() == old(Rows())
    {
      ok := datasbaseService.IncrementUsedCountAtomic(shortUrl);
    }

    /** `getStatistics`: the stored record of `shortUrl` (null when absent). */
    function GetStatistics(shortUrl: string): (r: Option<ShortUrl>)
      reads datasbaseService.repository.jpaRepository
      requires Valid()
      ensures r.Some? <==> exists i :: 0 <= i < |Rows()| && Rows()[i].shortUrl == shortUrl
      ensures forall i :: 0 <= i < |Rows()| && Rows()[i].shortUrl == shortUrl ==>
        r == Some(Postgres.MapToDomain(Rows()[i]))
    {
      assert Rows() == datasbaseService.repository.jpaRepository.rows;
      datasbaseService.FindByShortUrl(shortUrl)
    }

    /** `getOriginalUrl`: the original URL of `shortUrl`'s record, if any. */
    function GetOriginalUrl(shortUrl: string): (r: Option<string>)
      reads datasbaseService.repository.jpaRepository
      requires Valid()
      ensures r.Some? <==> exists i :: 0 <= i < |Rows()| && Rows()[i].shortUrl == shortUrl
      ensures forall i :: 0 <= i < |Rows()| && Rows()[i].shortUrl == shortUrl ==>
        r == Some(Rows()[i].originalUrl)
    {
      assert Rows() == datasbaseService.repository.jpaRepository.rows;
      match datasbaseService.FindByShortUrl(shortUrl)
      case None => None
      case Some(d) => Some(d.originalUrl)
    }

    /** `createShortUrl`: tries the salted candidates in order, stops at the first
        code no row carries, and inserts the new record under it; fails when all
        `MaxRetries` candidates are taken. `lookups` counts the short-URL lookups. */
    method CreateShortUrl(originalUrl: string) returns (r: Outcome, ghost lookups: nat)
      requires Valid()
      modifies datasbaseService.repository.jpaRepository
      ensures Valid()
      ensures (r, Rows()) == CreateSpec(old(Rows()), baseUrl, encode, originalUrl)
      ensures lookups == Lookups(old(Rows()), baseUrl, encode, originalUrl)
    {
      ghost var rows := Rows();
      ghost var codes := Candidates(baseUrl, encode, originalUrl);
      var shortUrl := "";
      var attempt: nat := 0;
      lookups := 0;
      while attempt < MaxRetries
        invariant attempt <= MaxRetries && lookups == attempt
        invariant Rows() == rows
        invariant forall j :: 0 <= j < attempt ==> !Free(rows, codes[j])
      {
        var input := if attempt == 0 then originalUrl else originalUrl + DecimalString(attempt);
        var encodedUrl := encode(input);
        shortUrl := baseUrl + encodedUrl;
        assert shortUrl == codes[attempt];
        lookups := lookups + 1;
        if datasbaseService.FindByShortUrl(shortUrl).None? {
          assert Free(rows, shortUrl);
          break;
        }
        assert !Free(rows, shortUrl);
        attempt := attempt + 1;
      }
      if attempt == MaxRetries {
        return GenerateFailed, lookups;
      }
      FirstFreeIsLeast(rows, codes, 0, attempt);
      var shortUrlDto := ShortUrl(shortUrl, originalUrl, 1, 0);
      assert shortUrlDto == NewRecord(Candidate(baseUrl, encode, originalUrl, attempt), originalUrl);
      var saved := datasbaseService.Save(shortUrlDto);
      match saved
      case Inserted(d) => r := Ok(d);
      case UniqueViolation => r := Conflict;
    }
  }
}
