/** The user handlers: `index` (the paginated `/api/users` collection) and
    the empty-field guard and roles default of `create` and `update`. The
    `read` handler and the password hasher are not part of this model; the
    hasher is a parameter. */
module UserController {
  import opened Wrappers
  import opened Repository
  import opened Http
  import Pagination
  import Decimal

  datatype UserFields = UserFields(email: string, password: string, roles: seq<string>)

  type User = Entity<UserFields>

  /** The name each collection route is registered under. */
  function RouteName(route: Pagination.Route): string {
    match route
    case FirstPage => "api_user_collection"
    case Pages(_) => "api_user_collection_page"
    case PagesStep(_, _) => "api_user_collection_page_step"
    case Last => "api_user_collection_page_last"
    case LastStep(_) => "api_user_collection_page_last_step"
  }

  const LastRouteNames: seq<string> :=
    ["api_user_collection_page_last", "api_user_collection_page_last_step"]

  /** The handler's `in_array` test on the matched route's name picks out
      exactly the two last-page routes. */
  predicate TakesLastRoute(route: Pagination.Route)
    ensures TakesLastRoute(route) <==> Pagination.IsLastRoute(route)
  {
    RouteName(route) in LastRouteNames
  }

  /** `index`: the shared pagination rule over the user store. */
  function Index(users: seq<User>, route: Pagination.Route, baseUrl: string): (o: Pagination.Outcome)
    ensures o == Pagination.Collection(users, Pagination.RequestFor(route, Pagination.IsLastRoute(route)), baseUrl)
  {
    Pagination.Collection(users, Pagination.RequestFor(route, TakesLastRoute(route)), baseUrl)
  }

  /** The request fields `create` and `update` read; an absent one is null. */
  datatype UserInput = UserInput(email: Option<string>, password: Option<string>, roles: Option<seq<string>>)

  /** PHP's `empty()` on a request string: null, `""` and `"0"`. */
  predicate IsEmpty(v: Option<string>) {
    v.None? || v.value == "" || v.value == "0"
  }

  predicate MissingCredentials(input: UserInput) {
    IsEmpty(input.email) || IsEmpty(input.password)
  }

  const MissingReason := "Missing email or password"

  /** `create`: refuses an empty email or password with 400 and stores
      nothing; otherwise stores a user under the fresh key `newId` with the
      hashed password and the given roles (none when absent), answering 201
      with the new user's location. */
  function Create(users: seq<User>, input: UserInput, newId: nat, hash: string -> string, usersUrl: string)
    : (r: (Response, seq<User>))
    ensures r.0.status == BadRequest <==> MissingCredentials(input)
    ensures MissingCredentials(input) ==>
      r.0.reason == MissingReason && r.0.headers == [ServerHeader] && r.1 == users
    ensures !MissingCredentials(input) ==>
      && r.0.status == Created
      && |r.1| == |users| + 1 && r.1[1..] == users
      && r.1[0] == Entity(newId, UserFields(input.email.value, hash(input.password.value), input.roles.GetOr([])))
      && Values(r.0.headers, "Location") == [Text(usersUrl + "/" + Decimal.FromNat(newId))]
  {
    if MissingCredentials(input) then
      (Response(BadRequest, MissingReason, [ServerHeader], None), users)
    else
      var user := Entity(newId, UserFields(input.email.value, hash(input.password.value), input.roles.GetOr([])));
      var location := Header("Location", Text(usersUrl + "/" + Decimal.FromNat(newId)));
      ValuesOfUnique([ServerHeader, location], "Location", 1);
      (Response(Created, "Created", [ServerHeader, location], None), [user] + users)
  }

  /** `update`: refuses an empty email or password with 400 and leaves the
      user as it was, because the setters run only after the guard;
      otherwise overwrites email and password and keeps the old roles when
      the request names none. */
  function Update(user: User, input: UserInput, hash: string -> string): (r: (Response, User))
    ensures r.0.status == BadRequest <==> MissingCredentials(input)
    ensures MissingCredentials(input) ==> r.0.reason == MissingReason && r.1 == user
    ensures !MissingCredentials(input) ==>
      && r.0.status == Ok
      && r.1.id == user.id
      && r.1.fields.email == input.email.value
      && r.1.fields.password == hash(input.password.value)
      && r.1.fields.roles == (if input.roles.Some? then input.roles.value else user.fields.roles)
  {
    var roles := input.roles.GetOr(user.fields.roles);
    if MissingCredentials(input) then
      (Response(BadRequest, MissingReason, [ServerHeader], None), user)
    else
      (Response(Ok, "User updated", [ServerHeader], None),
       Entity(user.id, UserFields(input.email.value, hash(input.password.value), roles)))
  }

  /** Sending the same update twice answers as sending it once and stores
      the same id, email and roles. The password hasher salts each call, so
      the stored hash is the one the last call produced: the second update
      stores what one update with that call's hasher stores. */
  lemma UpdateIdempotent(user: User, input: UserInput, first: string -> string, second: string -> string)
    ensures var once := Update(user, input, first);
      var twice := Update(once.1, input, second);
      && twice.0 == once.0
      && twice.1.id == once.1.id
      && twice.1.fields.email == once.1.fields.email
      && twice.1.fields.roles == once.1.fields.roles
      && twice.1 == Update(user, input, second).1
  {
  }

  /** With a key above every stored one (as the database assigns), the new
      user goes to the front of the id-descending store. */
  lemma {:induction false} CreateKeepsIdOrder(users: seq<User>, input: UserInput, newId: nat, hash: string -> string, usersUrl: string)
    requires IdDescending(users)
    requires forall i :: 0 <= i < |users| ==> users[i].id < newId
    ensures IdDescending(Create(users, input, newId, hash, usersUrl).1)
  {
    var after := Create(users, input, newId, hash, usersUrl).1;
    if !MissingCredentials(input) {
      forall i, j | 0 <= i < j < |after| ensures after[i].id > after[j].id {
        assert after[j] == users[j - 1];
        if i > 0 {
          assert after[i] == users[i - 1];
        }
      }
    }
  }

  /** A user just created under a key above every stored one is the latest
      entry of the store and the first one the collection's first page
      lists. */
  lemma {:induction false} CreatedUserListedFirst(users: seq<User>, input: UserInput, newId: nat, hash: string -> string, usersUrl: string, baseUrl: string)
    requires IdDescending(users)
    requires forall i :: 0 <= i < |users| ==> users[i].id < newId
    requires !MissingCredentials(input)
    ensures var after := Create(users, input, newId, hash, usersUrl).1;
      var o := Index(after, Pagination.FirstPage, baseUrl);
      && FindLastEntry(after).Some? && FindLastEntry(after).value.id == newId
      && o.Responded?
      && o.response.status == PartialContent
      && o.response.body.value.locations[0] == Pagination.Location(baseUrl, newId)
  {
    var after := Create(users, input, newId, hash, usersUrl).1;
    CreateKeepsIdOrder(users, input, newId, hash, usersUrl);
    var latest := FindLastEntry(after).value;
    assert after[0] in after;
    assert after[0].id <= latest.id;
    forall k | 0 <= k < |after| ensures after[k].id <= newId {
      if k > 0 {
        assert after[k] == users[k - 1];
      }
    }
    var k :| 0 <= k < |after| && after[k] == latest;
    var req := Pagination.RequestFor(Pagination.FirstPage, false);
    assert req == Pagination.Request(1, 10, false);
    assert Pagination.Current(|after|, req) == 1;
    Pagination.CollectionBody(after, req, baseUrl);
    assert Pagination.Window(after, req)[0] == after[0];
  }
}
