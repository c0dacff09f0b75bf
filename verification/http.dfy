/** The response a controller builds: a status code with its reason phrase,
    an ordered list of (name, value) header pairs (a name may repeat, as the
    multi-valued `Link` header does) and an optional JSON body. */
module Http {
  import opened Wrappers

  const Ok: nat := 200
  const Created: nat := 201
  const NoContent: nat := 204
  const PartialContent: nat := 206
  const BadRequest: nat := 400

  datatype HeaderValue = Text(text: string) | Num(num: int)

  datatype Header = Header(name: string, value: HeaderValue)

  /** The collection body: `{"Locations": [...], "meta": {"total_count": N}}`. */
  datatype Body = Listing(locations: seq<string>, totalCount: nat)

  datatype Response = Response(status: nat, reason: string, headers: seq<Header>, body: Option<Body>)

  /** Every handler sets this header first. */
  const ServerHeader := Header("Server", Text("ExoAPICRUDREST"))

  /** All values set under `name`, in the order they were set. */
  function Values(hs: seq<Header>, name: string): (vs: seq<HeaderValue>)
    ensures |vs| <= |hs|
    decreases |hs|
  {
    if |hs| == 0 then []
    else (if hs[0].name == name then [hs[0].value] else []) + Values(hs[1..], name)
  }

  /** Values of a concatenation are the concatenation of the values. */
  lemma {:induction false} ValuesAppend(a: seq<Header>, b: seq<Header>, name: string)
    ensures Values(a + b, name) == Values(a, name) + Values(b, name)
    decreases |a|
  {
    if |a| > 0 {
      assert (a + b)[1..] == a[1..] + b;
      ValuesAppend(a[1..], b, name);
    } else {
      assert a + b == b;
    }
  }

  /** A name never set has no values. */
  lemma {:induction false} ValuesOfAbsent(hs: seq<Header>, name: string)
    requires forall j :: 0 <= j < |hs| ==> hs[j].name != name
    ensures Values(hs, name) == []
    decreases |hs|
  {
    if |hs| > 0 {
      ValuesOfAbsent(hs[1..], name);
    }
  }

  /** A name set exactly once has exactly that one value. */
  lemma {:induction false} ValuesOfUnique(hs: seq<Header>, name: string, i: nat)
    requires i < |hs| && hs[i].name == name
    requires forall j :: 0 <= j < |hs| && j != i ==> hs[j].name != name
    ensures Values(hs, name) == [hs[i].value]
    decreases |hs|
  {
    if i > 0 {
      ValuesOfUnique(hs[1..], name, i - 1);
    } else {
      ValuesOfAbsent(hs[1..], name);
    }
  }

  /** A name set exactly twice has those two values, in the order set. */
  lemma {:induction false} ValuesOfPair(hs: seq<Header>, name: string, i: nat, j: nat)
    requires i < j < |hs| && hs[i].name == name && hs[j].name == name
    requires forall k :: 0 <= k < |hs| && k != i && k != j ==> hs[k].name != name
    ensures Values(hs, name) == [hs[i].value, hs[j].value]
    decreases |hs|
  {
    if i > 0 {
      ValuesOfPair(hs[1..], name, i - 1, j - 1);
    } else {
      ValuesOfUnique(hs[1..], name, j - 1);
    }
  }

  /** Appending headers of other names leaves the values of `name` alone. */
  lemma ValuesIgnoreOthers(a: seq<Header>, extra: seq<Header>, name: string)
    requires forall k :: 0 <= k < |extra| ==> extra[k].name != name
    ensures Values(a + extra, name) == Values(a, name)
  {
    ValuesAppend(a, extra, name);
    ValuesOfAbsent(extra, name);
  }
}
