/**
 * `MetadataStore`: the record of crawled URLs. The `crawled_urls` table, keyed by its
 * `url` column, is modelled as a map from url to the clock value of its last marking.
 */
module MetadataStore {
  import opened Wrappers
  import opened UrlNormalizer

  /**
   * `hasBeenCrawled` looks up the normal form of its argument. A `null` argument
   * normalizes to `null`, and `url = NULL` matches no row.
   */
  predicate Crawled(crawled: map<string, nat>, url: Option<string>) {
    match Normalize(url)
    case None => false
    case Some(n) => n in crawled
  }

  /** No timestamp lies in the future. */
  predicate TimestampsBy(crawled: map<string, nat>, clock: nat) {
    forall u :: u in crawled ==> crawled[u] <= clock
  }

  /** Nothing is crawled in a fresh table. */
  lemma NeverMarked(url: Option<string>)
    ensures !Crawled(map[], url)
  {
  }

  /** The lookup normalizes, so a url counts as crawled once its normal form is recorded. */
  lemma MarkNormalizedThenCrawled(crawled: map<string, nat>, u: string, now: nat)
    ensures var m := crawled[Normalize(Some(u)).value := now];
            Crawled(m, Some(u)) && Crawled(m, Normalize(Some(u)))
  {
    NormalizeIdempotent(Some(u));
  }

  /**
   * The record is stored verbatim: a url that is not its own normal form, recorded as it
   * is, is not found by the lookup unless its normal form was recorded too.
   */
  lemma MarkVerbatimMisses(crawled: map<string, nat>, u: string, now: nat)
    requires Normalize(Some(u)) != Some(u)
    requires Normalize(Some(u)).value !in crawled
    ensures !Crawled(crawled[u := now], Some(u))
  {
  }

  /** Marking adds or replaces one record and keeps every other record as it was. */
  lemma MarkKeepsOthers(crawled: map<string, nat>, u: string, now: nat)
    ensures var m := crawled[u := now];
            && m.Keys == crawled.Keys + {u}
            && m[u] == now
            && (forall v :: v in crawled && v != u ==> m[v] == crawled[v])
  {
  }

  /** Re-marking replaces the timestamp: the earlier marking leaves no trace. */
  lemma RemarkReplaces(crawled: map<string, nat>, u: string, first: nat, second: nat)
    ensures crawled[u := first][u := second] == crawled[u := second]
  {
  }

  /** Once the clock has moved on, re-marking a url gives it a strictly later timestamp. */
  lemma RemarkIsLater(crawled: map<string, nat>, u: string, clock: nat, now: nat)
    requires TimestampsBy(crawled, clock) && clock < now && u in crawled
    ensures crawled[u := now][u] > crawled[u]
    ensures TimestampsBy(crawled[u := now], now)
  {
  }

  /** The `crawled_urls` table of one database, with the database's clock. */
  class CrawledUrls {
    var crawled: map<string, nat>
    /** Rows whose `url` is `NULL`: a `TEXT PRIMARY KEY` admits them, and no lookup finds them. */
    var nullRows: nat
    var clock: nat

    predicate Valid()
      reads this
    {
      TimestampsBy(crawled, clock)
    }

    /** `createTable` on an empty database. */
    constructor ()
      ensures Valid()
      ensures crawled == map[] && nullRows == 0 && clock == 0
    {
      crawled := map[];
      nullRows := 0;
      clock := 0;
    }

    /** Time passes. */
    method Tick()
      requires Valid()
      modifies this
      ensures Valid()
      ensures crawled == old(crawled) && nullRows == old(nullRows) && clock == old(clock) + 1
    {
      clock := clock + 1;
    }

    /** `MetadataStore.markAsCrawled`: `INSERT OR REPLACE` of the url as given. */
    method MarkAsCrawled(url: Option<string>)
      requires Valid()
      modifies this
      ensures Valid() && clock == old(clock)
      ensures url.Some? ==> crawled == old(crawled)[url.value := clock] && nullRows == old(nullRows)
      ensures url.None? ==> crawled == old(crawled) && nullRows == old(nullRows) + 1
    {
      match url
      case None =>
        nullRows := nullRows + 1;
      case Some(u) =>
        crawled := crawled[u := clock];
    }

    /** `MetadataStore.hasBeenCrawled`. */
    method HasBeenCrawled(url: Option<string>) returns (b: bool)
      ensures b == Crawled(crawled, url)
      ensures url.None? ==> !b
    {
      var normalized := Normalize(url);
      b := normalized.Some? && normalized.value in crawled;
    }
  }
}
