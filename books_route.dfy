/**
 * GET /api/books: the whole catalog for an empty query, the search result
 * otherwise.
 */
module BooksRoute {
  import opened Wrappers
  import opened Text
  import opened DataService

  /** `req.query.q || ''`. */
  function QueryText(q: Option<string>): string {
    if q.Some? then q.value else ""
  }

  /** The reply body for the query `q` over the catalog `catalog`. */
  function ListBooks(q: Option<string>, catalog: seq<Book>): (r: seq<Book>)
    ensures QueryText(q) == "" ==> r == catalog
    ensures QueryText(q) != "" ==> forall b :: b in r <==> b in catalog && Matches(Lower(q.value), b)
  {
    var text := QueryText(q);
    if text == "" then catalog else SearchCatalog(Some(text), catalog)
  }

  /** The handler: reads the store, changes nothing. */
  method GetBooks(store: Store, q: Option<string>) returns (r: seq<Book>)
    ensures r == ListBooks(q, store.catalog[..])
  {
    var text := QueryText(q);
    if text == "" {
      var all := store.ReadBooks();
      return all[..];
    }
    r := store.FindBooksByQuery(Some(text));
  }

  /** A missing query and an empty one both list the whole catalog, in order. */
  lemma EmptyQueryListsAll(catalog: seq<Book>)
    ensures ListBooks(None, catalog) == catalog
    ensures ListBooks(Some(""), catalog) == catalog
  {
  }

  /**
   * A non-empty query lists exactly the search result: the matching books,
   * in catalog order.
   */
  lemma QueryListsMatches(q: string, catalog: seq<Book>)
    requires q != ""
    ensures ListBooks(Some(q), catalog) == SearchCatalog(Some(q), catalog)
    ensures exists idx :: SelectedInOrder(ListBooks(Some(q), catalog), catalog, idx, Matcher(Lower(q)))
  {
    SearchCatalogInOrder(q, catalog);
  }
}
