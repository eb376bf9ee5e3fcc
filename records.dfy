/** Value types shared by every layer: the short-URL record as the services
    see it (the DTO), the persisted entity, Java `int` counters and the
    result shapes of the store. */
module Records {

  datatype Option<+T> = None | Some(value: T)

  /** A Java `int`. */
  const IntMin: int := -0x8000_0000
  const IntMax: int := 0x7fff_ffff
  type Int32 = x: int | IntMin <= x <= IntMax

  /** Java's `x + 1` on an `int`: the `int` congruent to the exact sum modulo
      2^32 (the low-order 32 bits of the mathematical result). */
  function JavaInc(x: Int32): (r: Int32)
    ensures (r - (x + 1)) % 0x1_0000_0000 == 0
  {
    if x == IntMax then IntMin else x + 1
  }

  /** Below the maximum, Java's increment is the exact sum. */
  lemma JavaIncBelowMax(x: Int32)
    requires x < IntMax
    ensures JavaInc(x) == x + 1
  {
  }

  /** Exactly one `int` is congruent to `x + 1` modulo 2^32, so the contract of
      `JavaInc` determines it; at the maximum it wraps to the minimum. */
  lemma JavaIncUnique(x: Int32, r: Int32)
    requires (r - (x + 1)) % 0x1_0000_0000 == 0
    ensures r == JavaInc(x)
    ensures x == IntMax ==> JavaInc(x) == IntMin
  {
    var d := r - JavaInc(x);
    assert d % 0x1_0000_0000 == 0;
    assert -0x1_0000_0000 < d < 0x1_0000_0000;
  }

  /** The record handed between the services and the repository
      (fields in the order of the all-arguments constructor). */
  datatype ShortUrl = ShortUrl(shortUrl: string, originalUrl: string, requestCount: Int32, usedCount: Int32)

  /** The persisted row; `id` is generated by the store and absent until the row is inserted. */
  datatype Entity = Entity(id: Option<nat>, originalUrl: string, shortUrl: string, requestCount: Int32, usedCount: Int32)

  /** The two columns that carry a uniqueness constraint. */
  datatype Column = ShortUrlColumn | OriginalUrlColumn

  function ColumnValue(e: Entity, c: Column): string
  {
    match c
    case ShortUrlColumn => e.shortUrl
    case OriginalUrlColumn => e.originalUrl
  }

  /** The two counters the store can increment in place. */
  datatype Counter = RequestCounter | UsedCounter

  function CounterValue(e: Entity, c: Counter): Int32
  {
    match c
    case RequestCounter => e.requestCount
    case UsedCounter => e.usedCount
  }

  /** Outcome of an insert: the stored value, or a violated uniqueness constraint. */
  datatype SaveResult<+T> = Inserted(value: T) | UniqueViolation
}
