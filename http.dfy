/** What a route answers, and the lookups every route shares: find by the
    `parseInt`'d path id, `findIndex` + `splice(i, 1)` to delete, and
    `filter` by employee. */
module Http {
  import opened Maybe
  import opened Js
  import Seqs

  /** A route's answer: the JSON body of a 200/201, or the status code and
      `message` of an error response. `ServerError` is the 500 Express sends
      when a handler throws. */
  datatype Outcome<T> =
    | Ok(value: T)
    | BadRequest(message: string)
    | NotFound(message: string)
    | Unauthorized(message: string)
    | ServerError

  /** A route's answer together with the collection it leaves behind. */
  datatype Reply<S, T> = Reply(state: S, outcome: Outcome<T>)

  /** `if (!data.x) data.x = []`, or `data.x || []`: a collection the
      document may lack reads as the empty list. */
  function OrEmpty<T>(c: Option<seq<T>>): (r: seq<T>)
    ensures c.Some? ==> r == c.value
    ensures c.None? ==> r == []
  {
    c.GetOr([])
  }

  /** `GET /` of a collection created on first use: creates it and lists all of it. */
  function ListAll<T>(c: Option<seq<T>>): (r: Reply<Option<seq<T>>, seq<T>>)
    ensures r.state == Some(OrEmpty(c)) && r.outcome == Ok(OrEmpty(c))
  {
    var all := OrEmpty(c);
    Reply(Some(all), Ok(all))
  }

  /** `x.id === key` for a record id `id` and a JavaScript value `key`. */
  predicate HasKey(id: int, key: Val) {
    StrictEq(Num(id), key)
  }

  /** `s.findIndex(x => x.id === key)`. */
  function IndexOfKey<T>(s: seq<T>, id: T -> int, key: Val): (i: int)
    ensures -1 <= i < |s|
    ensures 0 <= i ==> HasKey(id(s[i]), key) && forall j :: 0 <= j < i ==> !HasKey(id(s[j]), key)
    ensures i == -1 <==> forall j :: 0 <= j < |s| ==> !HasKey(id(s[j]), key)
  {
    Seqs.FindIndex(s, x => HasKey(id(x), key))
  }

  /** Under unique ids, looking up the id of the `j`-th element finds it. */
  lemma IndexOfOwnKey<T>(s: seq<T>, id: T -> int, j: nat)
    requires Seqs.UniqueKeys(s, id) && j < |s|
    ensures IndexOfKey(s, id, Num(id(s[j]))) == j
  {
  }

  /** `GET /:id`: the record whose id is `key`, or 404 with `message`. */
  function FindById<T>(s: seq<T>, id: T -> int, key: Val, message: string): (r: Outcome<T>)
    ensures r.Ok? || r == NotFound(message)
    ensures r.Ok? <==> exists j :: 0 <= j < |s| && HasKey(id(s[j]), key)
    ensures r.Ok? ==> r.value in s && HasKey(id(r.value), key)
  {
    var i := IndexOfKey(s, id, key);
    if i < 0 then NotFound(message) else Ok(s[i])
  }

  /** `DELETE /:id`: splices out the first record whose id is `key`, or answers
      404 with `notFound` and keeps the collection. */
  function DeleteById<T>(s: seq<T>, id: T -> int, key: Val, notFound: string, deleted: string)
    : (r: Reply<seq<T>, string>)
    ensures r.outcome == Ok(deleted) || r.outcome == NotFound(notFound)
    ensures r.outcome.NotFound? <==> forall j :: 0 <= j < |s| ==> !HasKey(id(s[j]), key)
    ensures r.outcome.NotFound? ==> r.state == s
    ensures r.outcome.Ok? ==> |r.state| == |s| - 1
  {
    var i := IndexOfKey(s, id, key);
    if i < 0 then Reply(s, NotFound(notFound)) else Reply(Seqs.RemoveAt(s, i), Ok(deleted))
  }

  /** A successful delete removes exactly the record with that id: under unique
      ids none is left, and every other record stays, in order. */
  lemma DeleteRemovesExactlyOne<T>(s: seq<T>, id: T -> int, key: Val, notFound: string, deleted: string)
    requires Seqs.UniqueKeys(s, id)
    ensures var r := DeleteById(s, id, key, notFound, deleted);
      && Seqs.UniqueKeys(r.state, id)
      && (forall j :: 0 <= j < |r.state| ==> !HasKey(id(r.state[j]), key))
      && (r.outcome.Ok? ==> exists i :: 0 <= i < |s| && HasKey(id(s[i]), key) && r.state == s[..i] + s[i + 1..])
  {
    var i := IndexOfKey(s, id, key);
    var r := DeleteById(s, id, key, notFound, deleted);
    if i >= 0 {
      Seqs.RemoveKeepsUnique(s, id, i);
      forall j | 0 <= j < |r.state| ensures !HasKey(id(r.state[j]), key) {
        var j' := if j < i then j else j + 1;
        assert r.state[j] == s[j'];
      }
    }
  }

  /** The `filter(x => x.employeeId === key)` of the per-employee listings. */
  function ByEmployee<T>(s: seq<T>, employeeId: T -> Val, key: Val): (r: seq<T>)
    ensures forall i :: 0 <= i < |r| ==> r[i] in s && StrictEq(employeeId(r[i]), key)
    ensures forall i :: 0 <= i < |s| && StrictEq(employeeId(s[i]), key) ==> s[i] in r
  {
    Seqs.Filter(s, x => StrictEq(employeeId(x), key))
  }
}
