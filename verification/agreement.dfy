/** The two collection handlers are copies of one rule: given stores with the
    same ids they give the same outcome, and given stores of the same size
    the same status and headers. */
module Agreement {
  import opened Repository
  import Pagination
  import BookmarkController
  import UserController

  /** Same route, same base URL and the same id sequence: `index` answers
      exactly what the bookmark `collection` answers. */
  lemma {:induction false} IndexMatchesBookmarkCollection(
    bookmarks: seq<BookmarkController.Bookmark>, users: seq<UserController.User>,
    route: Pagination.Route, baseUrl: string)
    requires Ids(bookmarks) == Ids(users)
    ensures UserController.Index(users, route, baseUrl) == BookmarkController.Collection(bookmarks, route, baseUrl)
  {
    var req := Pagination.RequestFor(route, Pagination.IsLastRoute(route));
    Pagination.CollectionDependsOnlyOnIds(bookmarks, users, req, baseUrl);
  }

  /** Same route and the same row count: the two handlers answer with the
      same status, reason and headers (only the listed locations can
      differ). */
  lemma {:induction false} IndexShapeMatchesBookmarkCollection(
    bookmarks: seq<BookmarkController.Bookmark>, users: seq<UserController.User>,
    route: Pagination.Route, baseUrl: string)
    requires |bookmarks| == |users|
    ensures var ob := BookmarkController.Collection(bookmarks, route, baseUrl);
      var ou := UserController.Index(users, route, baseUrl);
      && (ob.Responded? <==> ou.Responded?)
      && (ob.Responded? ==>
            && ob.response.status == ou.response.status
            && ob.response.reason == ou.response.reason
            && ob.response.headers == ou.response.headers)
  {
    var req := Pagination.RequestFor(route, Pagination.IsLastRoute(route));
    Pagination.CollectionShapeDependsOnlyOnCount(bookmarks, users, req, baseUrl);
  }
}
