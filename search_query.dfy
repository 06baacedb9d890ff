/**
 * The full-text query the indexer compiles from the raw search string
 * (electron/indexer.ts:59-77): a quoted phrase-prefix alternative and a bare
 * prefix alternative of the same text, capped at 100 rows.
 */
module SearchQuery {

  /** The `LIMIT` of the search statement. */
  const MaxResults: nat := 100

  /** `"${query}"* OR ${query}*` */
  function SearchPattern(query: string): string {
    "\"" + query + "\"* OR " + query + "*"
  }
}
