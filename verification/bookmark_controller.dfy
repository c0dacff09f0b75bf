/** The bookmark collection handler, `collection`, answering the five
    `/api/bookmarks` collection routes. The other bookmark handlers are not
    part of this model. */
module BookmarkController {
  import opened Repository
  import Pagination

  datatype BookmarkFields = BookmarkFields(name: string, url: string, description: string)

  type Bookmark = Entity<BookmarkFields>

  /** The name each collection route is registered under. */
  function RouteName(route: Pagination.Route): string {
    match route
    case FirstPage => "api_bookmark_collection"
    case Pages(_) => "api_bookmark_collection_page"
    case PagesStep(_, _) => "api_bookmark_collection_page_step"
    case Last => "api_bookmark_collection_page_last"
    case LastStep(_) => "api_bookmark_collection_page_last_step"
  }

  const LastRouteNames: seq<string> :=
    ["api_bookmark_collection_page_last", "api_bookmark_collection_page_last_step"]

  /** The handler's `in_array` test on the matched route's name picks out
      exactly the two last-page routes. */
  predicate TakesLastRoute(route: Pagination.Route)
    ensures TakesLastRoute(route) <==> Pagination.IsLastRoute(route)
  {
    RouteName(route) in LastRouteNames
  }

  /** `collection`: the shared pagination rule over the bookmark store, with
      the route's parameters (page 1 and step 10 when the route has none). */
  function Collection(bookmarks: seq<Bookmark>, route: Pagination.Route, baseUrl: string): (o: Pagination.Outcome)
    ensures o == Pagination.Collection(bookmarks, Pagination.RequestFor(route, Pagination.IsLastRoute(route)), baseUrl)
  {
    Pagination.Collection(bookmarks, Pagination.RequestFor(route, TakesLastRoute(route)), baseUrl)
  }
}
