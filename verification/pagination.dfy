/** The collection pagination rule both collection handlers follow: from the
    row count, a 1-based page, a page size and whether a "last page" route was
    taken, it picks the rank of the first row to show, fetches that window
    from the store, and answers 204 past the end or 206 with the window's
    locations, setting the paging headers in both cases. */
module Pagination {
  import opened Wrappers
  import opened Repository
  import opened Http
  import Decimal

  const DefaultPage: nat := 1
  const DefaultStep: nat := 10

  /** The five routes of a collection, by shape: `/c`, `/c/pages/{page}`,
      `/c/pages/{page}/{step}`, `/c/last` and `/c/last/{step}`. Their
      parameters match `\d+`, so they are never negative. */
  datatype Route =
    | FirstPage
    | Pages(page: nat)
    | PagesStep(page: nat, step: nat)
    | Last
    | LastStep(step: nat)

  predicate IsLastRoute(route: Route) {
    route.Last? || route.LastStep?
  }

  /** The handler's arguments: the route's parameters, else the defaults. */
  datatype Request = Request(page: nat, step: nat, toLast: bool)

  function RequestFor(route: Route, toLast: bool): (req: Request)
    ensures req.toLast == toLast
    ensures req.page == (if route.Pages? || route.PagesStep? then route.page else DefaultPage)
    ensures req.step == (if route.PagesStep? || route.LastStep? then route.step else DefaultStep)
  {
    match route
    case FirstPage => Request(DefaultPage, DefaultStep, toLast)
    case Pages(p) => Request(p, DefaultStep, toLast)
    case PagesStep(p, s) => Request(p, s, toLast)
    case Last => Request(DefaultPage, DefaultStep, toLast)
    case LastStep(s) => Request(DefaultPage, s, toLast)
  }

  /** PHP's `intdiv`, which truncates toward zero (Dafny's `/` does not for a
      negative dividend). */
  function IntDiv(a: int, b: nat): (q: int)
    requires b > 0
    ensures a >= 0 ==> 0 <= q && q * b <= a < q * b + b
    ensures a < 0 ==> q <= 0 && a <= q * b < a + b
  {
    if a >= 0 then a / b else -((-a) / b)
  }

  /** The 1-based rank of the first row the page shows. It is a real rank
      (at least 1) on every request except page 0 with a non-zero step. */
  function Current(count: nat, req: Request): (c: int)
    ensures req.toLast || req.page >= 1 || req.step == 0 ==> c >= 1
    ensures !req.toLast && req.page == 0 ==> c == 1 - req.step
  {
    if req.toLast then Max(1, count - req.step)
    else
      assert req.page >= 1 ==> (req.page - 1) * req.step >= 0 by {
        if req.page >= 1 {
          var before: nat := req.page - 1;
          assert before * req.step >= 0;
        }
      }
      (req.page - 1) * req.step + 1
  }

  /** The value of `X-Current-Page`. */
  function CurrentPage(current: int, step: nat): int
    requires step > 0
  {
    IntDiv(current, step) + 1
  }

  /** The page the `next` link points to. The link is only built on a 206,
      which the handler reaches only after the store accepted the offset
      `current - 1`, so `current` is at least 1 there. */
  function NextPage(current: int, step: nat): (p: nat)
    requires step > 0 && current >= 1
    ensures p >= 2
  {
    IntDiv(current, step) + 2
  }

  function LastLink(base: string): string {
    "<" + base + "/last>; rel=\"last\""
  }

  function FirstLink(base: string): string {
    "<" + base + ">; rel=\"first\""
  }

  function NextLink(base: string, page: nat): string {
    "<" + base + "/pages/" + Decimal.FromNat(page) + ">; rel=\"next\""
  }

  /** The absolute URL of the row with key `id`. */
  function Location(base: string, id: nat): string {
    base + "/" + Decimal.FromNat(id)
  }

  function Locations<T>(base: string, fetched: seq<Entity<T>>): (locs: seq<string>)
    ensures |locs| == |fetched|
    ensures forall k :: 0 <= k < |fetched| ==> locs[k] == Location(base, fetched[k].id)
  {
    seq(|fetched|, k requires 0 <= k < |fetched| => Location(base, fetched[k].id))
  }

  /** The headers set before the past-the-end test, in the order they are set. */
  function PagingHeaders(base: string, count: nat, currentPage: int, step: nat, size: nat): seq<Header> {
    [ ServerHeader,
      Header("Link", Text(LastLink(base))),
      Header("Link", Text(FirstLink(base))),
      Header("X-Total-Count", Num(count)),
      Header("X-Current-Page", Num(currentPage)),
      Header("X-Per-Page", Num(step)),
      Header("X-Page-Size", Num(size)) ]
  }

  /** How a collection request ends: a response, or an uncaught error. */
  datatype Outcome =
    | Responded(response: Response)
    | QueryFailed(error: QueryError)   // the store refused the window
    | DivisionByZero                   // `intdiv` by a zero page size

  /** The `next` link a page advertises: none on the last-page routes. */
  function NextLinks(base: string, current: int, step: nat, toLast: bool): seq<Header>
    requires step > 0 && current >= 1
  {
    if toLast then [] else [Header("Link", Text(NextLink(base, NextPage(current, step))))]
  }

  /** The response once the window is fetched: the paging headers first,
      then 204 past the end, else 206 with the `next` link and the body.
      The store accepted the offset `current - 1`, so `current >= 1`. */
  function Respond<T>(base: string, count: nat, current: int, step: nat, toLast: bool, fetched: seq<Entity<T>>)
    : (r: Response)
    requires step > 0 && current >= 1
    ensures r.status == NoContent <==> current > count
    ensures r.status == PartialContent <==> current <= count
    ensures r.body.Some? <==> r.status == PartialContent
  {
    var headers := PagingHeaders(base, count, CurrentPage(current, step), step, |fetched|);
    if current > count then
      Response(NoContent, "Max page number reached", headers, None)
    else
      Response(PartialContent, "Partial Content", headers + NextLinks(base, current, step, toLast),
               Some(Listing(Locations(base, fetched), count)))
  }

  /** The shared collection handler over a store of rows. */
  function Collection<T>(rows: seq<Entity<T>>, req: Request, base: string): (o: Outcome)
    ensures o.DivisionByZero? <==> req.step == 0
    ensures o.QueryFailed? <==> req.step > 0 && !req.toLast && req.page == 0
    ensures o.QueryFailed? ==> o.error == NegativeFirstResult(-(req.step as int))
    ensures o.Responded? ==> o.response.status in {NoContent, PartialContent}
    ensures o.Responded? ==> (o.response.status == NoContent <==> Current(|rows|, req) > |rows|)
    ensures o.Responded? ==> (o.response.body.Some? <==> o.response.status == PartialContent)
  {
    var count := CountAll(rows);
    var current := Current(count, req);
    match FindNextX(rows, current - 1, req.step)
    case Failure(e) => QueryFailed(e)
    case Success(fetched) =>
      if req.step == 0 then DivisionByZero
      else Responded(Respond(base, count, current, req.step, req.toLast, fetched))
  }

  /** The paging headers other than `Link` are each set exactly once. */
  lemma PagingHeaderSetOnce(base: string, count: nat, currentPage: int, step: nat, size: nat, i: nat)
    requires 3 <= i < 7
    ensures var hs := PagingHeaders(base, count, currentPage, step, size);
      Values(hs, hs[i].name) == [hs[i].value]
  {
    var hs := PagingHeaders(base, count, currentPage, step, size);
    assert forall j :: 0 <= j < |hs| && j != i ==> hs[j].name != hs[i].name;
    ValuesOfUnique(hs, hs[i].name, i);
  }

  /** `Link` holds the `last` and then the `first` relation. */
  lemma PagingHeaderLinks(base: string, count: nat, currentPage: int, step: nat, size: nat)
    ensures Values(PagingHeaders(base, count, currentPage, step, size), "Link")
         == [Text(LastLink(base)), Text(FirstLink(base))]
  {
    var hs := PagingHeaders(base, count, currentPage, step, size);
    assert forall k :: 0 <= k < |hs| && k != 1 && k != 2 ==> hs[k].name != "Link";
    ValuesOfPair(hs, "Link", 1, 2);
  }

  /** Multiplying by a positive size preserves strict order backwards. */
  lemma MulCancel(x: int, y: int, b: nat)
    requires b > 0 && x * b < y * b
    ensures x < y
  {
  }

  /** The quotient `intdiv` gives is the only one in range. */
  lemma QuotientUnique(a: int, b: nat, q: int)
    requires b > 0 && a >= 0 && q * b <= a < q * b + b
    ensures IntDiv(a, b) == q
  {
    var r := IntDiv(a, b);
    assert r * b < (q + 1) * b;
    MulCancel(r, q + 1, b);
    assert q * b < (r + 1) * b;
    MulCancel(q, r + 1, b);
  }

  /** An explicit page `p` starts at rank `(p - 1) * step + 1`, so its
      `X-Current-Page` is `p` for a step of 2 or more and `p + 1` for a step
      of 1. */
  lemma {:induction false} CurrentPageOfExplicitPage(count: nat, req: Request)
    requires !req.toLast && req.page >= 1 && req.step >= 1
    ensures CurrentPage(Current(count, req), req.step) == if req.step >= 2 then req.page else req.page + 1
  {
    var q: nat := req.page - 1;
    var current := Current(count, req);
    assert current == q * req.step + 1;
    if req.step >= 2 {
      QuotientUnique(current, req.step, q);
    } else {
      QuotientUnique(current, req.step, q + 1);
    }
  }

  /** A request that reaches a response: a non-zero step, and a real page
      number or a last-page route. */
  predicate Answerable(req: Request) {
    req.step > 0 && (req.toLast || req.page >= 1)
  }

  /** The window the handler fetches: offset `current - 1`, limit `step`. */
  function Window<T>(rows: seq<Entity<T>>, req: Request): (fetched: seq<Entity<T>>)
    requires Answerable(req)
    ensures |fetched| == WindowSize(|rows|, Current(|rows|, req) - 1, req.step)
  {
    FindNextX(rows, Current(|rows|, req) - 1, req.step).value
  }

  /** An answered request gets the response built from its window. */
  lemma CollectionResponds<T>(rows: seq<Entity<T>>, req: Request, base: string)
    requires Answerable(req)
    ensures Collection(rows, req, base)
         == Responded(Respond(base, |rows|, Current(|rows|, req), req.step, req.toLast, Window(rows, req)))
  {
  }

  /** The paging headers keep their values whatever follows them. */
  lemma {:induction false} RespondHeaders<T>(base: string, count: nat, current: int, step: nat, toLast: bool, fetched: seq<Entity<T>>)
    requires step > 0 && current >= 1
    ensures var hs := Respond(base, count, current, step, toLast, fetched).headers;
      && Values(hs, "X-Total-Count") == [Num(count)]
      && Values(hs, "X-Current-Page") == [Num(CurrentPage(current, step))]
      && Values(hs, "X-Per-Page") == [Num(step)]
      && Values(hs, "X-Page-Size") == [Num(|fetched|)]
  {
    var paging := PagingHeaders(base, count, CurrentPage(current, step), step, |fetched|);
    var hs := Respond(base, count, current, step, toLast, fetched).headers;
    var extra := if current > count then [] else NextLinks(base, current, step, toLast);
    assert hs == paging + extra;
    forall i | 3 <= i < 7
      ensures Values(hs, paging[i].name) == [paging[i].value]
    {
      PagingHeaderSetOnce(base, count, CurrentPage(current, step), step, |fetched|, i);
      ValuesIgnoreOthers(paging, extra, paging[i].name);
    }
    assert paging[3].name == "X-Total-Count" && paging[4].name == "X-Current-Page";
    assert paging[5].name == "X-Per-Page" && paging[6].name == "X-Page-Size";
  }

  /** `Link` holds `last` and `first`, then `next` only on a 206 from a route
      other than the last-page ones. */
  lemma {:induction false} RespondLinks<T>(base: string, count: nat, current: int, step: nat, toLast: bool, fetched: seq<Entity<T>>)
    requires step > 0 && current >= 1
    ensures var r := Respond(base, count, current, step, toLast, fetched);
      Values(r.headers, "Link")
        == [Text(LastLink(base)), Text(FirstLink(base))]
         + (if r.status == PartialContent && !toLast then [Text(NextLink(base, NextPage(current, step)))] else [])
  {
    var paging := PagingHeaders(base, count, CurrentPage(current, step), step, |fetched|);
    var r := Respond(base, count, current, step, toLast, fetched);
    var extra := if current > count then [] else NextLinks(base, current, step, toLast);
    assert r.headers == paging + extra;
    ValuesAppend(paging, extra, "Link");
    PagingHeaderLinks(base, count, CurrentPage(current, step), step, |fetched|);
    var nexts: seq<HeaderValue> :=
      if r.status == PartialContent && !toLast then [Text(NextLink(base, NextPage(current, step)))] else [];
    assert Values(extra, "Link") == nexts by {
      if r.status == PartialContent && !toLast {
        assert extra == [Header("Link", Text(NextLink(base, NextPage(current, step))))];
        ValuesOfUnique(extra, "Link", 0);
      } else {
        assert extra == [];
      }
    }
  }

  /** The headers the response carries whatever its status, because they are
      set before the past-the-end test; `X-Page-Size` counts the fetched
      rows. */
  lemma {:induction false} CollectionHeaders<T>(rows: seq<Entity<T>>, req: Request, base: string)
    requires Answerable(req)
    ensures Collection(rows, req, base).Responded?
    ensures var hs := Collection(rows, req, base).response.headers;
      var current := Current(|rows|, req);
      && Values(hs, "X-Total-Count") == [Num(|rows|)]
      && Values(hs, "X-Current-Page") == [Num(CurrentPage(current, req.step))]
      && Values(hs, "X-Per-Page") == [Num(req.step)]
      && Values(hs, "X-Page-Size") == [Num(|Window(rows, req)|)]
  {
    CollectionResponds(rows, req, base);
    RespondHeaders(base, |rows|, Current(|rows|, req), req.step, req.toLast, Window(rows, req));
  }

  /** `Link` holds `last` and `first`, then `next` only on a 206 from a route
      other than the last-page ones; `next` targets `current div step + 2`. */
  lemma {:induction false} CollectionLinks<T>(rows: seq<Entity<T>>, req: Request, base: string)
    requires Answerable(req)
    ensures Collection(rows, req, base).Responded?
    ensures var r := Collection(rows, req, base).response;
      var current := Current(|rows|, req);
      Values(r.headers, "Link")
        == [Text(LastLink(base)), Text(FirstLink(base))]
         + (if r.status == PartialContent && !req.toLast
            then [Text(NextLink(base, NextPage(current, req.step)))] else [])
  {
    CollectionResponds(rows, req, base);
    RespondLinks(base, |rows|, Current(|rows|, req), req.step, req.toLast, Window(rows, req));
  }

  /** A 206 lists the location of every fetched row, in fetch order, and the
      total count; a 204 has no body and fetched nothing. Whenever the
      request is answered, a 206 shows at least one row. */
  lemma {:induction false} CollectionBody<T>(rows: seq<Entity<T>>, req: Request, base: string)
    requires Answerable(req)
    ensures Collection(rows, req, base).Responded?
    ensures var r := Collection(rows, req, base).response;
      var current := Current(|rows|, req);
      && (r.status == NoContent ==> r.body.None? && |Window(rows, req)| == 0)
      && (r.status == PartialContent ==>
            && r.body == Some(Listing(Locations(base, Window(rows, req)), |rows|))
            && 1 <= |Window(rows, req)|
            && forall k :: 0 <= k < |Window(rows, req)| ==> Window(rows, req)[k] == rows[current - 1 + k])
  {
  }

  /** Asking for page `p` by number shows `X-Current-Page: p` and a `next`
      link to `p + 1` when the step is 2 or more; with a step of 1 both are
      one too high (`p + 1` and `p + 2`). */
  lemma {:induction false} ExplicitPageRoundTrip<T>(rows: seq<Entity<T>>, req: Request, base: string)
    requires !req.toLast && req.page >= 1 && req.step >= 1
    ensures Collection(rows, req, base).Responded?
    ensures var r := Collection(rows, req, base).response;
      var shown := if req.step >= 2 then req.page else req.page + 1;
      && Values(r.headers, "X-Current-Page") == [Num(shown)]
      && (r.status == PartialContent ==>
            Values(r.headers, "Link")
              == [Text(LastLink(base)), Text(FirstLink(base)), Text(NextLink(base, shown + 1))])
  {
    var current := Current(|rows|, req);
    var shown := if req.step >= 2 then req.page else req.page + 1;
    CurrentPageOfExplicitPage(|rows|, req);
    assert CurrentPage(current, req.step) == shown;
    assert NextPage(current, req.step) == shown + 1;
    var r := Collection(rows, req, base).response;
    CollectionHeaders(rows, req, base);
    assert Values(r.headers, "X-Current-Page") == [Num(shown)];
    CollectionLinks(rows, req, base);
  }

  /** An empty collection answers 204 with an empty page to every answered
      request, explicit page or last page alike. */
  lemma {:induction false} EmptyCollectionNoContent<T>(rows: seq<Entity<T>>, req: Request, base: string)
    requires |rows| == 0 && Answerable(req)
    ensures Collection(rows, req, base).Responded?
    ensures Collection(rows, req, base).response.status == NoContent
    ensures Values(Collection(rows, req, base).response.headers, "X-Page-Size") == [Num(0)]
  {
    CollectionHeaders(rows, req, base);
  }

  /** Page 0 (which `\d+` admits) starts at rank `1 - step`, which is never
      past the end, so the handler takes the 206 path and asks the store for
      the rows from offset `-step`, which the store refuses. */
  lemma PageZeroNegativeOffset<T>(rows: seq<Entity<T>>, req: Request, base: string)
    requires !req.toLast && req.page == 0 && req.step > 0
    ensures Current(|rows|, req) <= 0 && !(Current(|rows|, req) > |rows|)
    ensures Current(|rows|, req) - 1 == -(req.step as int)
    ensures Collection(rows, req, base) == QueryFailed(NegativeFirstResult(-(req.step as int)))
  {
  }

  /** On a last-page route a non-empty collection answers 206 with a full
      page of `min(step, count)` rows and no `next` link. */
  lemma {:induction false} LastPage<T>(rows: seq<Entity<T>>, req: Request, base: string)
    requires req.toLast && req.step > 0 && |rows| > 0
    ensures Collection(rows, req, base).Responded?
    ensures var r := Collection(rows, req, base).response;
      && r.status == PartialContent
      && |r.body.value.locations| == Min(req.step, |rows|)
      && Values(r.headers, "Link") == [Text(LastLink(base)), Text(FirstLink(base))]
  {
    var current := Current(|rows|, req);
    assert 1 <= current <= |rows|;
    assert |Window(rows, req)| == Min(req.step, |rows|);
    CollectionResponds(rows, req, base);
    RespondLinks(base, |rows|, current, req.step, req.toLast, Window(rows, req));
  }

  /** The last-page window starts at `max(0, count - step - 1)`: once the
      collection holds more than `step` rows it stops one row short of the
      end. */
  lemma {:induction false} LastPageWindow<T>(rows: seq<Entity<T>>, req: Request)
    requires req.toLast && req.step > 0 && |rows| > req.step
    ensures Window(rows, req) == rows[|rows| - req.step - 1 .. |rows| - 1]
  {
    var w := Window(rows, req);
    assert Current(|rows|, req) == |rows| - req.step;
    assert |w| == req.step;
    assert forall k :: 0 <= k < |w| ==> w[k] == rows[|rows| - req.step - 1 + k];
  }

  /** Worked example: 25 rows, default step, page 3 is the partial third
      page — ranks 21 to 25, five rows, `X-Current-Page: 3` and a `next`
      link to page 4. */
  lemma {:induction false} ThirdOfTwentyFive<T>(rows: seq<Entity<T>>, base: string)
    requires |rows| == 25
    ensures var r := Collection(rows, Request(3, DefaultStep, false), base).response;
      && Collection(rows, Request(3, DefaultStep, false), base).Responded?
      && r.status == PartialContent
      && r.body == Some(Listing(Locations(base, rows[20..25]), 25))
      && Values(r.headers, "X-Page-Size") == [Num(5)]
      && Values(r.headers, "X-Current-Page") == [Num(3)]
      && Values(r.headers, "Link")
           == [Text(LastLink(base)), Text(FirstLink(base)), Text(NextLink(base, 4))]
  {
    var req := Request(3, DefaultStep, false);
    assert Current(25, req) == 21;
    assert Window(rows, req) == rows[20..25];
    CollectionBody(rows, req, base);
    CollectionHeaders(rows, req, base);
    ExplicitPageRoundTrip(rows, req, base);
  }

  /** Worked example: page 4 of the same 25 rows starts past the end and
      answers 204 with an empty page. */
  lemma {:induction false} FourthOfTwentyFive<T>(rows: seq<Entity<T>>, base: string)
    requires |rows| == 25
    ensures var r := Collection(rows, Request(4, DefaultStep, false), base).response;
      && Collection(rows, Request(4, DefaultStep, false), base).Responded?
      && r.status == NoContent
      && r.body.None?
      && Values(r.headers, "X-Page-Size") == [Num(0)]
      && Values(r.headers, "X-Current-Page") == [Num(4)]
  {
    var req := Request(4, DefaultStep, false);
    assert Current(25, req) == 31;
    CollectionBody(rows, req, base);
    CollectionHeaders(rows, req, base);
    ExplicitPageRoundTrip(rows, req, base);
  }

  /** Worked example: the last page of 25 rows with the default step starts
      at rank 15 and shows ranks 15 to 24, announced as page 2. */
  lemma {:induction false} LastOfTwentyFive<T>(rows: seq<Entity<T>>, base: string)
    requires |rows| == 25
    ensures var r := Collection(rows, Request(DefaultPage, DefaultStep, true), base).response;
      && Collection(rows, Request(DefaultPage, DefaultStep, true), base).Responded?
      && r.status == PartialContent
      && r.body == Some(Listing(Locations(base, rows[14..24]), 25))
      && Values(r.headers, "X-Current-Page") == [Num(2)]
  {
    var req := Request(DefaultPage, DefaultStep, true);
    assert Current(25, req) == 15;
    assert IntDiv(15, 10) == 1;
    LastPageWindow(rows, req);
    CollectionBody(rows, req, base);
    CollectionHeaders(rows, req, base);
  }

  /** In an id-descending store the oldest row never appears on the last
      page once the collection holds more than `step` rows. */
  lemma {:induction false} LastPageOmitsOldest<T>(rows: seq<Entity<T>>, req: Request, base: string)
    requires IdDescending(rows)
    requires req.toLast && req.step > 0 && |rows| > req.step
    ensures Location(base, rows[|rows| - 1].id) !in Collection(rows, req, base).response.body.value.locations
  {
    LastPageWindow(rows, req);
    CollectionBody(rows, req, base);
    var locs := Collection(rows, req, base).response.body.value.locations;
    var w := Window(rows, req);
    forall k | 0 <= k < |locs| ensures locs[k] != Location(base, rows[|rows| - 1].id) {
      assert w[k] == rows[|rows| - req.step - 1 + k];
      LocationInjective(base, w[k].id, rows[|rows| - 1].id);
    }
  }

  /** Distinct ids have distinct locations. */
  lemma LocationInjective(base: string, a: nat, b: nat)
    ensures Location(base, a) == Location(base, b) ==> a == b
  {
    if Location(base, a) == Location(base, b) {
      var n := |base| + 1;
      assert Decimal.FromNat(a) == Location(base, a)[n..];
      assert Decimal.FromNat(b) == Location(base, b)[n..];
      Decimal.Injective(a, b);
    }
  }

  /** In an id-descending store a page lists each row once, newest first:
      its locations are pairwise distinct. */
  lemma {:induction false} LocationsDistinct<T>(rows: seq<Entity<T>>, req: Request, base: string)
    requires IdDescending(rows) && Answerable(req)
    ensures var r := Collection(rows, req, base).response;
      r.status == PartialContent ==>
        forall i, j :: 0 <= i < j < |r.body.value.locations| ==>
          r.body.value.locations[i] != r.body.value.locations[j]
  {
    CollectionBody(rows, req, base);
    var r := Collection(rows, req, base).response;
    if r.status == PartialContent {
      var w := Window(rows, req);
      var locs := r.body.value.locations;
      forall i, j | 0 <= i < j < |locs| ensures locs[i] != locs[j] {
        assert w[i].id > w[j].id;
        LocationInjective(base, w[i].id, w[j].id);
      }
    }
  }

  /** Explicit pages are consecutive blocks of `step` ranks starting at rank
      1, so the first rank grows with the page number. */
  lemma {:induction false} CurrentMonotone(count: nat, req: Request, later: nat)
    requires !req.toLast && 1 <= req.page <= later
    ensures Current(count, req) <= Current(count, req.(page := later))
    ensures Current(count, req.(page := 1)) == 1
    ensures Current(count, req.(page := req.page + 1)) == Current(count, req) + req.step
    decreases later - req.page
  {
    var next := req.(page := req.page + 1);
    assert Current(count, next) == req.page * req.step + 1;
    assert req.page * req.step == (req.page - 1) * req.step + req.step;
    if req.page < later {
      CurrentMonotone(count, next, later);
    }
  }

  /** The handler reads nothing of a row but its id: two stores with the
      same id sequence get the same outcome, whatever else the rows hold. */
  lemma {:induction false} CollectionDependsOnlyOnIds<A, B>(a: seq<Entity<A>>, b: seq<Entity<B>>, req: Request, base: string)
    requires Ids(a) == Ids(b)
    ensures Collection(a, req, base) == Collection(b, req, base)
  {
    assert |a| == |Ids(a)| == |Ids(b)| == |b|;
    if Answerable(req) {
      var wa, wb := Window(a, req), Window(b, req);
      var current := Current(|a|, req);
      assert |wa| == |wb|;
      forall k | 0 <= k < |wa| ensures wa[k].id == wb[k].id {
        assert wa[k] == a[current - 1 + k] && wb[k] == b[current - 1 + k];
        assert Ids(a)[current - 1 + k] == Ids(b)[current - 1 + k];
      }
      assert Locations(base, wa) == Locations(base, wb);
    }
  }

  /** Status, reason and headers depend on the row count alone: two stores of
      the same size answer alike, whatever rows they hold. */
  lemma {:induction false} CollectionShapeDependsOnlyOnCount<A, B>(a: seq<Entity<A>>, b: seq<Entity<B>>, req: Request, base: string)
    requires |a| == |b|
    ensures Collection(a, req, base).Responded? <==> Collection(b, req, base).Responded?
    ensures Collection(a, req, base).Responded? ==>
      var ra, rb := Collection(a, req, base).response, Collection(b, req, base).response;
      ra.status == rb.status && ra.reason == rb.reason && ra.headers == rb.headers
  {
    if Answerable(req) {
      assert |Window(a, req)| == |Window(b, req)|;
    }
  }
}
