/** The watermark pagination loop of the snapshot adapter.

    A fetch session asks the indexing service for pages of snapshots whose
    timestamp is at least a watermark, appends each non-empty page to its
    result and moves the watermark just past the last record of the page.
    It stops at the first empty page or at the first reply that is not a
    success, and returns what it has gathered so far.

    The service is abstracted as a script: the sequence of replies it gives,
    one per request, in order. The requests the loop sends are returned so
    that what was asked can be stated next to what was answered.
 */
module Adapter {

  datatype Option<T> = None | Some(value: T)

  /** One snapshot record as the service returns it (user and token are flattened). */
  datatype Snapshot = Snapshot(
    blockNumber: int,
    netSupplied: int,
    timestamp: int,
    userId: string,
    tokenId: string,
    tokenName: string,
    tokenSymbol: string)

  /** Number of records asked for in each request. */
  const PAGE_SIZE: int := 1000

  /** The two query texts, kept opaque: every record, or the records of one block. */
  datatype QueryTemplate = QueryAll | QueryBlock

  /** The keys of the request's variables dictionary. */
  datatype VarName = First | Timestamp | BlockNumber

  datatype Request = Request(query: QueryTemplate, variables: map<VarName, int>)

  /** A reply: its status code, whether its body carries an "errors" key, and
      the snapshot list of its body (meaningless when the reply is not a success). */
  datatype Response = Response(statusCode: int, hasErrors: bool, snapshots: seq<Snapshot>)

  /** The success test of the loop: status 200 and no "errors" key. */
  predicate Succeeded(r: Response) {
    r.statusCode == 200 && !r.hasErrors
  }

  /** A reply after which the loop sends another request: a non-empty successful page. */
  predicate Continues(r: Response) {
    Succeeded(r) && r.snapshots != []
  }

  /** The server eventually gives a reply that ends the session. */
  predicate EndsSession(script: seq<Response>) {
    exists k :: 0 <= k < |script| && !Continues(script[k])
  }

  function Last(page: seq<Snapshot>): Snapshot
    requires page != []
  {
    page[|page| - 1]
  }

  /** The template of a session is chosen once, from whether a block number was given. */
  function TemplateFor(blockNumber: Option<int>): (q: QueryTemplate)
    ensures q == QueryAll <==> blockNumber.None?
  {
    if blockNumber.None? then QueryAll else QueryBlock
  }

  /** The request a session with the given block filter sends at the given watermark. */
  function RequestFor(blockNumber: Option<int>, watermark: int): Request {
    Request(TemplateFor(blockNumber), VariablesFor(blockNumber, watermark))
  }

  /** The variables of a request: the page size, the watermark, and the block number if one is given. */
  function VariablesFor(blockNumber: Option<int>, watermark: int): map<VarName, int> {
    var variables := map[First := PAGE_SIZE, Timestamp := watermark];
    if blockNumber.Some? then variables[BlockNumber := blockNumber.value] else variables
  }

  /** Every request carries the session's template, the page size, the
      watermark, and the block number exactly when one was given. */
  lemma RequestShape(blockNumber: Option<int>, watermark: int)
    ensures var r := RequestFor(blockNumber, watermark);
            (r.query == QueryAll <==> blockNumber.None?)
            && First in r.variables && r.variables[First] == PAGE_SIZE
            && Timestamp in r.variables && r.variables[Timestamp] == watermark
            && (BlockNumber in r.variables <==> blockNumber.Some?)
            && (blockNumber.Some? ==> r.variables[BlockNumber] == blockNumber.value)
  {
  }

  /** The position of the reply that ends the session: every earlier reply
      is a non-empty successful page, and this one is not. */
  function StopIndex(script: seq<Response>): (k: nat)
    requires EndsSession(script)
    ensures k < |script| && !Continues(script[k])
    ensures forall j :: 0 <= j < k ==> Continues(script[j])
  {
    if !Continues(script[0]) then 0
    else
      var k0 :| 0 <= k0 < |script| && !Continues(script[k0]);
      assert EndsSession(script[1..]) by { assert !Continues(script[1..][k0 - 1]); }
      1 + StopIndex(script[1..])
  }

  /** The in-order concatenation of the pages of the first n replies. */
  function Gathered(script: seq<Response>, n: nat): seq<Snapshot>
    requires n <= |script|
  {
    if n == 0 then [] else Gathered(script, n - 1) + script[n - 1].snapshots
  }

  /** The watermark of the i-th request of a session: 0 for the first, and one
      past the timestamp of the last record of the previous page afterwards. */
  function Watermark(script: seq<Response>, i: nat): int
    requires i <= |script|
    requires 0 < i ==> script[i - 1].snapshots != []
  {
    if i == 0 then 0 else Last(script[i - 1].snapshots).timestamp + 1
  }

  /** The first n requests of a session. */
  function Sent(blockNumber: Option<int>, script: seq<Response>, n: nat): seq<Request>
    requires EndsSession(script) && n <= StopIndex(script) + 1
  {
    if n == 0 then [] else Sent(blockNumber, script, n - 1) + [RequestFor(blockNumber, Watermark(script, n - 1))]
  }

  /** The i-th request of a session is the request at the i-th watermark. */
  lemma {:induction false} SentAt(blockNumber: Option<int>, script: seq<Response>, n: nat)
    requires EndsSession(script) && n <= StopIndex(script) + 1
    ensures |Sent(blockNumber, script, n)| == n
    ensures forall i :: 0 <= i < n ==> Sent(blockNumber, script, n)[i] == RequestFor(blockNumber, Watermark(script, i))
  {
    if n > 0 {
      SentAt(blockNumber, script, n - 1);
      var earlier := Sent(blockNumber, script, n - 1);
      var sent := Sent(blockNumber, script, n);
      assert sent == earlier + [RequestFor(blockNumber, Watermark(script, n - 1))];
      forall i | 0 <= i < n - 1 ensures sent[i] == RequestFor(blockNumber, Watermark(script, i)) {
        assert sent[i] == earlier[i];
      }
    }
  }

  lemma Retime(blockNumber: Option<int>, watermark: int, next: int)
    ensures VariablesFor(blockNumber, watermark)[Timestamp := next] == VariablesFor(blockNumber, next)
  {
  }

  /** One fetch session. The result is the concatenation of the pages before
      the first reply that is a failure or an empty page, that reply's request
      is the last one sent, and every request carries the session's template,
      page size and block filter with the current watermark. */
  method GetNetSuppliedAmount(blockNumber: Option<int>, script: seq<Response>)
    returns (snapshots: seq<Snapshot>, requests: seq<Request>)
    requires EndsSession(script)
    ensures snapshots == Gathered(script, StopIndex(script))
    ensures requests == Sent(blockNumber, script, StopIndex(script) + 1)
  {
    var timestamp := 0;
    snapshots := [];

    var query := if blockNumber.None? then QueryAll else QueryBlock;
    var variables := map[First := PAGE_SIZE, Timestamp := timestamp];
    if blockNumber.Some? {
      variables := variables[BlockNumber := blockNumber.value];
    }

    requests := [];
    while true
      invariant |requests| <= StopIndex(script)
      invariant snapshots == Gathered(script, |requests|)
      invariant timestamp == Watermark(script, |requests|)
      invariant query == TemplateFor(blockNumber)
      invariant variables == VariablesFor(blockNumber, timestamp)
      invariant requests == Sent(blockNumber, script, |requests|)
      decreases |script| - |requests|
    {
      var sent := |requests|;
      requests := requests + [Request(query, variables)];
      assert requests == Sent(blockNumber, script, sent + 1);
      // the server answers the k-th request with the k-th reply of its script
      var response := script[sent];
      if response.statusCode == 200 && !response.hasErrors {
        var current := response.snapshots;
        if current == [] {
          assert sent == StopIndex(script);
          break;
        }
        snapshots := snapshots + current;
        // move the watermark past the last record received
        timestamp := current[|current| - 1].timestamp + 1;
        assert timestamp == Watermark(script, sent + 1);
        Retime(blockNumber, Watermark(script, sent), timestamp);
        variables := variables[Timestamp := timestamp];
      } else {
        assert sent == StopIndex(script);
        break;
      }
    }
  }

  /** The loop's stopping point is determined by the script: if the replies
      before position k all continue and the one at k does not, the session
      makes exactly k + 1 requests and returns the first k pages. */
  lemma {:induction false} StopsAt(script: seq<Response>, k: nat)
    requires k < |script| && !Continues(script[k])
    requires forall j :: 0 <= j < k ==> Continues(script[j])
    ensures EndsSession(script)
    ensures StopIndex(script) == k
  {
    assert !Continues(script[k]);
    if k > 0 {
      StopsAt(script[1..], k - 1);
    }
  }

  /** The first n pages depend on the first n replies only. */
  lemma {:induction false} GatheredAgree(a: seq<Response>, b: seq<Response>, n: nat)
    requires n <= |a| && n <= |b|
    requires forall j :: 0 <= j < n ==> a[j] == b[j]
    ensures Gathered(a, n) == Gathered(b, n)
  {
    if n > 0 {
      GatheredAgree(a, b, n - 1);
    }
  }

  /** The pages after a first reply are gathered after that reply's page. */
  lemma {:induction false} GatheredPrepend(r: Response, rest: seq<Response>, n: nat)
    requires n <= |rest|
    ensures Gathered([r] + rest, n + 1) == r.snapshots + Gathered(rest, n)
  {
    var script := [r] + rest;
    if n == 0 {
      assert script[0] == r;
    } else {
      GatheredPrepend(r, rest, n - 1);
      assert script[n] == rest[n - 1];
      calc {
        Gathered(script, n + 1);
        Gathered(script, n) + rest[n - 1].snapshots;
        (r.snapshots + Gathered(rest, n - 1)) + rest[n - 1].snapshots;
        r.snapshots + (Gathered(rest, n - 1) + rest[n - 1].snapshots);
        r.snapshots + Gathered(rest, n);
      }
    }
  }

  /** A session whose server gives the non-empty pages `pages` and then a
      stopping reply (an empty page or a failure) sends |pages| + 1 requests
      and returns exactly the records of those pages, in order; what the
      server would have said afterwards does not matter. */
  lemma Exhaustion(pages: seq<Response>, stop: Response, rest: seq<Response>)
    requires forall j :: 0 <= j < |pages| ==> Continues(pages[j])
    requires !Continues(stop)
    ensures EndsSession(pages + [stop] + rest)
    ensures StopIndex(pages + [stop] + rest) == |pages|
    ensures Gathered(pages + [stop] + rest, |pages|) == Gathered(pages, |pages|)
  {
    var script := pages + [stop] + rest;
    StopsAt(script, |pages|);
    GatheredAgree(script, pages, |pages|);
  }
}
