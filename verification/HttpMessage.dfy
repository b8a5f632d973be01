/** `HttpRequest` and `HttpResponse` (source/http.hpp). */
module HttpMessage {
  import opened Strings

  type Table = map<string, string>

  /** `unordered_map::insert`: a key that is already bound keeps its value. */
  function Insert(m: Table, k: string, v: string): Table {
    if k in m then m else m[k := v]
  }

  /** A run of insertions: the first binding of each key wins. */
  function InsertAll(m: Table, pairs: seq<(string, string)>): Table
    decreases |pairs|
  {
    if pairs == [] then m
    else InsertAll(Insert(m, pairs[0].0, pairs[0].1), pairs[1..])
  }

  predicate BoundFirst(pairs: seq<(string, string)>, k: string, i: nat) {
    i < |pairs| && pairs[i].0 == k && forall j :: 0 <= j < i ==> pairs[j].0 != k
  }

  /** `InsertAll` without its order of evaluation: the table it starts from wins, then the
      first pair with the key; nothing else is bound. */
  lemma {:induction false} FirstBindingWins(m: Table, pairs: seq<(string, string)>, k: string)
    ensures k in m ==> k in InsertAll(m, pairs) && InsertAll(m, pairs)[k] == m[k]
    ensures forall i: nat :: k !in m && BoundFirst(pairs, k, i) ==>
              k in InsertAll(m, pairs) && InsertAll(m, pairs)[k] == pairs[i].1
    ensures k !in m && (forall i :: 0 <= i < |pairs| ==> pairs[i].0 != k) ==> k !in InsertAll(m, pairs)
    decreases |pairs|
  {
    if pairs != [] {
      var m' := Insert(m, pairs[0].0, pairs[0].1);
      FirstBindingWins(m', pairs[1..], k);
      forall i: nat | k !in m && BoundFirst(pairs, k, i)
        ensures k in InsertAll(m, pairs) && InsertAll(m, pairs)[k] == pairs[i].1
      {
        if i > 0 {
          assert BoundFirst(pairs[1..], k, i - 1);
        }
      }
    }
  }

  datatype Request = Request(verb: string, url: string, version: string, body: string,
                             headers: Table, params: Table)
  {
    /** `None` where `std::stol` throws; a negative length becomes a huge `size_t`. */
    function ContentLength(): (r: Option<nat>)
      ensures r.Some? ==> r.value < SIZE_T
    {
      if "Content-Length" !in headers then Some(0)
      else
        match Stol(headers["Content-Length"])
        case None => None
        case Some(n) => Some(if n < 0 then n + SIZE_T else n)
    }

    predicate Close() {
      !("Connection" in headers && headers["Connection"] == "keep-alive")
    }
  }

  const FRESH := Request("", "", "HTTP/1.1", "", map[], map[])

  datatype Response = Response(status: int, redirect: Option<string>, body: string, headers: Table)
  {
    predicate Close() {
      !("Connection" in headers && headers["Connection"] == "keep-alive")
    }
  }

  function EmptyResponse(status: int): Response {
    Response(status, None, "", map[])
  }
}
