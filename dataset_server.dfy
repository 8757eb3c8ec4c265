/** A server backed by a fixed dataset, as the snapshot query describes it:
    it answers a request with the first `first` records, in ascending
    timestamp order, whose timestamp is at least the request's watermark
    (and, for the block template, whose block number is the requested one).

    Trace gives the replies such a server makes to a fetch session; the
    lemmas below show that they are exactly its answers to the requests the
    loop sends, that the watermark then strictly increases, that the session
    never returns a record twice or out of order, and that it returns every
    record if and only if no page ends inside a run of equal timestamps.
 */
module DatasetServer {
  import opened Adapter

  /** Ascending by timestamp, ties allowed. */
  predicate Sorted(s: seq<Snapshot>) {
    forall i, j :: 0 <= i < j < |s| ==> s[i].timestamp <= s[j].timestamp
  }

  /** The records of the given block, or every record when no block is given. */
  function InBlock(records: seq<Snapshot>, blockNumber: Option<int>): (r: seq<Snapshot>)
    ensures |r| <= |records|
  {
    if records == [] then []
    else
      (if blockNumber.None? || records[0].blockNumber == blockNumber.value then [records[0]] else [])
      + InBlock(records[1..], blockNumber)
  }

  /** The records whose timestamp is at least the watermark. */
  function Above(records: seq<Snapshot>, watermark: int): (r: seq<Snapshot>)
    ensures |r| <= |records|
  {
    if records == [] then []
    else (if records[0].timestamp >= watermark then [records[0]] else []) + Above(records[1..], watermark)
  }

  /** The block filter keeps records of the requested block only, all of them taken from the input. */
  lemma {:induction false} InBlockMembers(records: seq<Snapshot>, blockNumber: Option<int>)
    ensures forall i :: 0 <= i < |InBlock(records, blockNumber)| ==>
              InBlock(records, blockNumber)[i] in records
              && (blockNumber.Some? ==> InBlock(records, blockNumber)[i].blockNumber == blockNumber.value)
  {
    if records != [] {
      InBlockMembers(records[1..], blockNumber);
      var r := InBlock(records, blockNumber);
      var rest := InBlock(records[1..], blockNumber);
      var head := if blockNumber.None? || records[0].blockNumber == blockNumber.value then [records[0]] else [];
      assert r == head + rest;
      forall i | |head| <= i < |r|
        ensures r[i] in records && (blockNumber.Some? ==> r[i].blockNumber == blockNumber.value)
      {
        assert r[i] == rest[i - |head|];
        assert rest[i - |head|] in records[1..];
      }
    }
  }

  /** The block filter keeps a record if and only if it is in the dataset and
      of the requested block (any block when none is given). */
  lemma {:induction false} InBlockExact(records: seq<Snapshot>, blockNumber: Option<int>, x: Snapshot)
    ensures x in InBlock(records, blockNumber)
            <==> x in records && (blockNumber.None? || x.blockNumber == blockNumber.value)
  {
    InBlockMembers(records, blockNumber);
    if records != [] {
      InBlockExact(records[1..], blockNumber, x);
      var head := if blockNumber.None? || records[0].blockNumber == blockNumber.value then [records[0]] else [];
      assert InBlock(records, blockNumber) == head + InBlock(records[1..], blockNumber);
      assert x in records <==> x == records[0] || x in records[1..];
    }
  }

  /** With no block number the block filter keeps the whole dataset, in order. */
  lemma {:induction false} InBlockAll(records: seq<Snapshot>)
    ensures InBlock(records, None) == records
  {
    if records != [] {
      InBlockAll(records[1..]);
      assert records == [records[0]] + records[1..];
    }
  }

  /** The watermark filter keeps records at or above the watermark only, all of them taken from the input. */
  lemma {:induction false} AboveMembers(records: seq<Snapshot>, watermark: int)
    ensures forall i :: 0 <= i < |Above(records, watermark)| ==>
              Above(records, watermark)[i] in records && Above(records, watermark)[i].timestamp >= watermark
  {
    if records != [] {
      AboveMembers(records[1..], watermark);
      var r := Above(records, watermark);
      var rest := Above(records[1..], watermark);
      var head := if records[0].timestamp >= watermark then [records[0]] else [];
      assert r == head + rest;
      forall i | |head| <= i < |r| ensures r[i] in records && r[i].timestamp >= watermark {
        assert r[i] == rest[i - |head|];
        assert rest[i - |head|] in records[1..];
      }
    }
  }

  /** The watermark filter keeps a record if and only if it is in the input
      and at or above the watermark. */
  lemma {:induction false} AboveExact(records: seq<Snapshot>, watermark: int, x: Snapshot)
    ensures x in Above(records, watermark) <==> x in records && x.timestamp >= watermark
  {
    AboveMembers(records, watermark);
    if records != [] {
      AboveExact(records[1..], watermark, x);
      var head := if records[0].timestamp >= watermark then [records[0]] else [];
      assert Above(records, watermark) == head + Above(records[1..], watermark);
      assert x in records <==> x == records[0] || x in records[1..];
    }
  }

  /** What the query selects before the page size is applied. */
  function Matching(records: seq<Snapshot>, blockNumber: Option<int>, watermark: int): seq<Snapshot> {
    Above(InBlock(records, blockNumber), watermark)
  }

  /** The query selects a record if and only if it is in the dataset, of the
      requested block (any block when none is given) and at or above the watermark. */
  lemma MatchingExact(records: seq<Snapshot>, blockNumber: Option<int>, watermark: int, x: Snapshot)
    ensures x in Matching(records, blockNumber, watermark)
            <==> x in records && (blockNumber.None? || x.blockNumber == blockNumber.value) && x.timestamp >= watermark
  {
    InBlockExact(records, blockNumber, x);
    AboveExact(InBlock(records, blockNumber), watermark, x);
  }

  /** The first n elements, or all of them when there are fewer. */
  function Take(s: seq<Snapshot>, n: int): (r: seq<Snapshot>)
    ensures |r| == if n <= 0 then 0 else if n < |s| then n else |s|
    ensures r == s[..|r|]
  {
    if n <= 0 then [] else if n < |s| then s[..n] else s
  }

  /** The block filter a request asks for: only the block template filters. */
  function BlockFilter(req: Request): Option<int>
    requires req.query == QueryBlock ==> BlockNumber in req.variables
  {
    if req.query == QueryBlock then Some(req.variables[BlockNumber]) else None
  }

  /** The server's reply: always a success, holding at most `first` records,
      each at or above the watermark and of the requested block. */
  function Answer(records: seq<Snapshot>, req: Request): (r: Response)
    requires First in req.variables && Timestamp in req.variables
    requires req.query == QueryBlock ==> BlockNumber in req.variables
    ensures Succeeded(r)
    ensures |r.snapshots| <= if req.variables[First] <= 0 then 0 else req.variables[First]
    ensures forall i :: 0 <= i < |r.snapshots| ==> r.snapshots[i].timestamp >= req.variables[Timestamp]
    ensures req.query == QueryBlock ==>
              forall i :: 0 <= i < |r.snapshots| ==> r.snapshots[i].blockNumber == req.variables[BlockNumber]
  {
    var inBlock := InBlock(records, BlockFilter(req));
    var m := Above(inBlock, req.variables[Timestamp]);
    var page := Take(m, req.variables[First]);
    InBlockMembers(records, BlockFilter(req));
    AboveMembers(inBlock, req.variables[Timestamp]);
    assert forall i :: 0 <= i < |page| ==> page[i] == m[i];
    Response(200, false, page)
  }

  /** The page a session with the given block filter receives at a watermark. */
  function PageAt(records: seq<Snapshot>, blockNumber: Option<int>, watermark: int): seq<Snapshot> {
    Take(Matching(records, blockNumber, watermark), PAGE_SIZE)
  }

  /** The reply a session receives at a watermark is the server's answer to the
      request the session sends there. */
  lemma AnswerAt(records: seq<Snapshot>, blockNumber: Option<int>, watermark: int)
    ensures Answer(records, RequestFor(blockNumber, watermark)) == Response(200, false, PageAt(records, blockNumber, watermark))
  {
    var req := RequestFor(blockNumber, watermark);
    RequestShape(blockNumber, watermark);
    assert BlockFilter(req) == blockNumber;
  }

  lemma {:induction false} AboveShrinks(s: seq<Snapshot>, watermark: int, k: nat)
    requires k < |s| && s[k].timestamp < watermark
    ensures |Above(s, watermark)| < |s|
  {
    if k > 0 {
      AboveShrinks(s[1..], watermark, k - 1);
    }
  }

  lemma {:induction false} AboveAbove(s: seq<Snapshot>, low: int, high: int)
    requires low <= high
    ensures Above(Above(s, low), high) == Above(s, high)
  {
    if s != [] {
      var rest := Above(s[1..], low);
      AboveAbove(s[1..], low, high);
      if s[0].timestamp >= low {
        var once := [s[0]] + rest;
        assert Above(s, low) == once;
        assert once[0] == s[0] && once[1..] == rest;
        if s[0].timestamp < high {
          assert Above(s, high) == Above(s[1..], high);
          assert Above(once, high) == Above(rest, high);
        }
      } else {
        assert Above(s, low) == rest;
        assert Above(s, high) == Above(s[1..], high);
      }
    }
  }

  /** The watermark the session moves to after a non-empty page strictly
      reduces what is left to fetch; this is what makes a session end. */
  lemma NextWatermarkShrinks(records: seq<Snapshot>, blockNumber: Option<int>, watermark: int)
    requires PageAt(records, blockNumber, watermark) != []
    ensures var page := PageAt(records, blockNumber, watermark);
            |Matching(records, blockNumber, Last(page).timestamp + 1)| < |Matching(records, blockNumber, watermark)|
  {
    var m := Matching(records, blockNumber, watermark);
    var page := PageAt(records, blockNumber, watermark);
    var next := Last(page).timestamp + 1;
    assert Last(page) == m[|page| - 1];
    AboveMembers(InBlock(records, blockNumber), watermark);
    AboveAbove(InBlock(records, blockNumber), watermark, next);
    AboveShrinks(m, next, |page| - 1);
  }

  /** The replies the dataset server gives to a session whose next request
      has the given watermark. */
  function Trace(records: seq<Snapshot>, blockNumber: Option<int>, watermark: int): (t: seq<Response>)
    ensures |t| > 0 && Succeeded(t[|t| - 1]) && t[|t| - 1].snapshots == []
    ensures forall j :: 0 <= j < |t| - 1 ==> Continues(t[j])
    decreases |Matching(records, blockNumber, watermark)|
  {
    var reply := Response(200, false, PageAt(records, blockNumber, watermark));
    if reply.snapshots == [] then [reply]
    else
      NextWatermarkShrinks(records, blockNumber, watermark);
      [reply] + Trace(records, blockNumber, Last(reply.snapshots).timestamp + 1)
  }

  /** The replies the dataset server gives to a whole session. */
  function Script(records: seq<Snapshot>, blockNumber: Option<int>): seq<Response> {
    Trace(records, blockNumber, 0)
  }

  /** Each reply after the first is the page at one past the last timestamp
      of the page before it. */
  predicate Linked(records: seq<Snapshot>, blockNumber: Option<int>, t: seq<Response>)
    decreases |t|
  {
    |t| <= 1
    || (t[0].snapshots != []
        && t[1] == Response(200, false, PageAt(records, blockNumber, Last(t[0].snapshots).timestamp + 1))
        && Linked(records, blockNumber, t[1..]))
  }

  lemma {:induction false} LinkedAt(records: seq<Snapshot>, blockNumber: Option<int>, t: seq<Response>, i: nat)
    requires Linked(records, blockNumber, t) && i + 1 < |t|
    ensures t[i].snapshots != []
    ensures t[i + 1] == Response(200, false, PageAt(records, blockNumber, Last(t[i].snapshots).timestamp + 1))
  {
    if i > 0 {
      LinkedAt(records, blockNumber, t[1..], i - 1);
    }
  }

  lemma TraceCons(records: seq<Snapshot>, blockNumber: Option<int>, watermark: int)
    requires PageAt(records, blockNumber, watermark) != []
    ensures var page := PageAt(records, blockNumber, watermark);
            Trace(records, blockNumber, watermark)
            == [Response(200, false, page)] + Trace(records, blockNumber, Last(page).timestamp + 1)
  {
  }

  /** Each reply of a trace answers the request sent at that point of the
      session: the first at the starting watermark, each later one at one past
      the last timestamp of the page before it. */
  lemma {:induction false} TraceAnswers(records: seq<Snapshot>, blockNumber: Option<int>, watermark: int)
    ensures var t := Trace(records, blockNumber, watermark);
            t[0] == Response(200, false, PageAt(records, blockNumber, watermark))
            && Linked(records, blockNumber, t)
    decreases |Matching(records, blockNumber, watermark)|
  {
    var page := PageAt(records, blockNumber, watermark);
    if page != [] {
      var next := Last(page).timestamp + 1;
      NextWatermarkShrinks(records, blockNumber, watermark);
      TraceAnswers(records, blockNumber, next);
      TraceCons(records, blockNumber, watermark);
      var t := Trace(records, blockNumber, watermark);
      assert t[1..] == Trace(records, blockNumber, next);
    }
  }

  /** The dataset server's script is a legitimate input to the loop: the
      session ends exactly at its last reply, an empty page. */
  lemma ScriptEnds(records: seq<Snapshot>, blockNumber: Option<int>)
    ensures var t := Script(records, blockNumber);
            EndsSession(t) && StopIndex(t) == |t| - 1
  {
    var t := Script(records, blockNumber);
    StopsAt(t, |t| - 1);
  }

  /** Every reply of the script is the dataset server's answer to the very
      request the loop sends at that point of the session. */
  lemma ScriptAnswers(records: seq<Snapshot>, blockNumber: Option<int>)
    ensures var t := Script(records, blockNumber);
            forall i {:trigger Watermark(t, i)} :: 0 <= i < |t| ==>
              t[i] == Answer(records, RequestFor(blockNumber, Watermark(t, i)))
  {
    var t := Script(records, blockNumber);
    forall i | 0 <= i < |t|
      ensures t[i] == Answer(records, RequestFor(blockNumber, Watermark(t, i)))
    {
      ScriptReply(records, blockNumber, i);
      AnswerAt(records, blockNumber, Watermark(t, i));
    }
  }

  /** The i-th reply of the script is the page at the i-th watermark. */
  lemma ScriptReply(records: seq<Snapshot>, blockNumber: Option<int>, i: nat)
    requires i < |Script(records, blockNumber)|
    ensures var t := Script(records, blockNumber);
            t[i] == Response(200, false, PageAt(records, blockNumber, Watermark(t, i)))
  {
    var t := Script(records, blockNumber);
    if i == 0 {
      TraceAnswers(records, blockNumber, 0);
      assert Watermark(t, 0) == 0;
    } else {
      ScriptReplyAfter(records, blockNumber, i);
      assert Watermark(t, i) == Last(t[i - 1].snapshots).timestamp + 1;
    }
  }

  /** Each reply of the script after the first is the page at one past the
      last timestamp of the reply before it. */
  lemma ScriptReplyAfter(records: seq<Snapshot>, blockNumber: Option<int>, i: nat)
    requires 0 < i < |Script(records, blockNumber)|
    ensures var t := Script(records, blockNumber);
            t[i - 1].snapshots != []
            && t[i] == Response(200, false, PageAt(records, blockNumber, Last(t[i - 1].snapshots).timestamp + 1))
  {
    TraceAnswers(records, blockNumber, 0);
    LinkedAt(records, blockNumber, Script(records, blockNumber), i - 1);
  }

  /** Under the dataset server the watermark strictly increases from one
      request to the next, whatever the order of the dataset. */
  lemma WatermarkIncreases(records: seq<Snapshot>, blockNumber: Option<int>)
    ensures var t := Script(records, blockNumber);
            forall i {:trigger Watermark(t, i)} :: 0 < i < |t| ==> Watermark(t, i - 1) < Watermark(t, i)
  {
    var t := Script(records, blockNumber);
    ScriptAnswers(records, blockNumber);
    forall i | 0 < i < |t|
      ensures Watermark(t, i - 1) < Watermark(t, i)
    {
      var page := t[i - 1].snapshots;
      assert t[i - 1] == Answer(records, RequestFor(blockNumber, Watermark(t, i - 1)));
      assert page[|page| - 1].timestamp >= Watermark(t, i - 1);
    }
  }

  lemma {:induction false} InBlockSorted(records: seq<Snapshot>, blockNumber: Option<int>)
    requires Sorted(records)
    ensures Sorted(InBlock(records, blockNumber))
  {
    if records != [] {
      InBlockSorted(records[1..], blockNumber);
      InBlockMembers(records[1..], blockNumber);
      var rest := InBlock(records[1..], blockNumber);
      forall j | 0 <= j < |rest| ensures records[0].timestamp <= rest[j].timestamp {
        assert rest[j] in records[1..];
      }
    }
  }

  lemma {:induction false} AboveSorted(s: seq<Snapshot>, watermark: int)
    requires Sorted(s)
    ensures Sorted(Above(s, watermark))
  {
    if s != [] {
      AboveSorted(s[1..], watermark);
      AboveMembers(s[1..], watermark);
      var rest := Above(s[1..], watermark);
      forall j | 0 <= j < |rest| ensures s[0].timestamp <= rest[j].timestamp {
        assert rest[j] in s[1..];
      }
    }
  }

  lemma MatchingSorted(records: seq<Snapshot>, blockNumber: Option<int>, watermark: int)
    requires Sorted(records)
    ensures Sorted(Matching(records, blockNumber, watermark))
  {
    InBlockSorted(records, blockNumber);
    AboveSorted(InBlock(records, blockNumber), watermark);
  }

  lemma {:induction false} AboveAll(s: seq<Snapshot>, watermark: int)
    requires forall j :: 0 <= j < |s| ==> s[j].timestamp >= watermark
    ensures Above(s, watermark) == s
  {
    if s != [] {
      AboveAll(s[1..], watermark);
    }
  }

  /** In an ascending sequence the records at or above a watermark are a
      suffix, and every record before that suffix is below the watermark. */
  lemma {:induction false} AboveSuffix(s: seq<Snapshot>, watermark: int)
    requires Sorted(s)
    ensures var r := Above(s, watermark);
            r == s[|s| - |r|..] && forall j :: 0 <= j < |s| - |r| ==> s[j].timestamp < watermark
  {
    if s != [] {
      if s[0].timestamp >= watermark {
        forall j | 0 <= j < |s| ensures s[j].timestamp >= watermark {
          assert s[0].timestamp <= s[j].timestamp;
        }
        AboveAll(s, watermark);
        assert s[0..] == s;
      } else {
        var rest := s[1..];
        SortedTail(s);
        AboveSuffix(rest, watermark);
        var r := Above(rest, watermark);
        assert Above(s, watermark) == r;
        assert rest[|rest| - |r|..] == s[|s| - |r|..];
        forall j | 0 <= j < |s| - |r| ensures s[j].timestamp < watermark {
          if j > 0 {
            assert s[j] == rest[j - 1];
          }
        }
      }
    }
  }

  lemma SortedTail(s: seq<Snapshot>)
    requires Sorted(s) && s != []
    ensures Sorted(s[1..])
  {
    forall i, j | 0 <= i < j < |s| - 1 ensures s[1..][i].timestamp <= s[1..][j].timestamp {
      assert s[1..][i] == s[i + 1] && s[1..][j] == s[j + 1];
    }
  }

  /** What paging through an ascending sequence yields: the first PAGE_SIZE
      records, then what paging yields from the records past the last
      timestamp of that page. */
  function Paginate(m: seq<Snapshot>): seq<Snapshot>
    decreases |m|
  {
    var page := Take(m, PAGE_SIZE);
    if page == [] then []
    else
      AboveShrinks(m, Last(page).timestamp + 1, |page| - 1);
      page + Paginate(Above(m, Last(page).timestamp + 1))
  }

  /** The record after every page, if there is one, has a timestamp other
      than the last record of that page: no page ends inside a run of equal
      timestamps. */
  predicate NoRunSplit(m: seq<Snapshot>)
    decreases |m|
  {
    var page := Take(m, PAGE_SIZE);
    if page == [] then true
    else
      AboveShrinks(m, Last(page).timestamp + 1, |page| - 1);
      (|page| == |m| || m[|page|].timestamp != Last(page).timestamp)
      && NoRunSplit(Above(m, Last(page).timestamp + 1))
  }

  lemma SplitThree(s: seq<Snapshot>, a: nat, b: nat)
    requires a <= b <= |s|
    ensures s == s[..a] + (s[a..b] + s[b..])
  {
  }

  /** In an ascending sequence the records at or above a watermark start at
      some position k: every record before k is below it and every record from
      k on is at or above it. */
  lemma AboveStart(s: seq<Snapshot>, watermark: int) returns (k: nat)
    requires Sorted(s)
    ensures k <= |s| && Above(s, watermark) == s[k..]
    ensures forall j :: 0 <= j < k ==> s[j].timestamp < watermark
    ensures forall j :: k <= j < |s| ==> s[j].timestamp >= watermark
  {
    AboveSuffix(s, watermark);
    var next := Above(s, watermark);
    k := |s| - |next|;
    AboveMembers(s, watermark);
    forall j | k <= j < |s| ensures s[j].timestamp >= watermark {
      assert s[j] == next[j - k];
    }
  }

  /** In an ascending sequence, the records from lo up to k that are all
      below t + 1 share the timestamp t of the record just before lo. */
  lemma RunTail(m: seq<Snapshot>, lo: nat, k: nat, t: int)
    requires Sorted(m) && 0 < lo <= k <= |m|
    requires m[lo - 1].timestamp == t
    requires forall j :: 0 <= j < k ==> m[j].timestamp < t + 1
    ensures forall j :: lo <= j < k ==> m[j].timestamp == t
  {
    forall j | lo <= j < k ensures m[j].timestamp == t {
      assert m[lo - 1].timestamp <= m[j].timestamp;
    }
  }

  /** Where a page of an ascending sequence ends: the sequence is the page,
      then the records that share the page's last timestamp but were not on
      it, then the records past that timestamp. There are no such skipped
      records exactly when the record after the page, if any, has another
      timestamp. */
  lemma PageSplit(m: seq<Snapshot>) returns (skipped: seq<Snapshot>)
    requires Sorted(m)
    requires Take(m, PAGE_SIZE) != []
    ensures var page := Take(m, PAGE_SIZE);
            m == page + (skipped + Above(m, Last(page).timestamp + 1))
            && (forall j :: 0 <= j < |skipped| ==> skipped[j].timestamp == Last(page).timestamp)
            && (skipped == [] <==> |page| == |m| || m[|page|].timestamp != Last(page).timestamp)
  {
    var page := Take(m, PAGE_SIZE);
    var t := Last(page).timestamp;
    var k := AboveStart(m, t + 1);
    assert m[|page| - 1] == Last(page);
    assert |page| <= k;
    RunTail(m, |page|, k, t);
    SplitThree(m, |page|, k);
    skipped := m[|page|..k];
    forall j | 0 <= j < |skipped| ensures skipped[j].timestamp == t {
      assert skipped[j] == m[|page| + j];
    }
    if skipped != [] {
      assert m[|page|] == skipped[0];
    }
  }

  /** a is b with some records left out, the rest in the same order. */
  predicate IsSubsequence(a: seq<Snapshot>, b: seq<Snapshot>)
    decreases |b|
  {
    if a == [] then true
    else if b == [] then false
    else (a[0] == b[0] && IsSubsequence(a[1..], b[1..])) || IsSubsequence(a, b[1..])
  }

  lemma {:induction false} SubsequencePrepend(a: seq<Snapshot>, skipped: seq<Snapshot>, b: seq<Snapshot>)
    requires IsSubsequence(a, b)
    ensures IsSubsequence(a, skipped + b)
    decreases |skipped|
  {
    if skipped == [] {
      assert skipped + b == b;
    } else if a != [] {
      SubsequencePrepend(a, skipped[1..], b);
      assert (skipped + b)[1..] == skipped[1..] + b;
    }
  }

  lemma {:induction false} SubsequenceCommonPrefix(prefix: seq<Snapshot>, a: seq<Snapshot>, b: seq<Snapshot>)
    requires IsSubsequence(a, b)
    ensures IsSubsequence(prefix + a, prefix + b)
    decreases |prefix|
  {
    if prefix == [] {
      assert prefix + a == a && prefix + b == b;
    } else {
      SubsequenceCommonPrefix(prefix[1..], a, b);
      assert (prefix + a)[1..] == prefix[1..] + a;
      assert (prefix + b)[1..] == prefix[1..] + b;
    }
  }

  lemma {:induction false} SubsequenceLength(a: seq<Snapshot>, b: seq<Snapshot>)
    requires IsSubsequence(a, b)
    ensures |a| <= |b|
    decreases |b|
  {
    if a != [] {
      if a[0] == b[0] && IsSubsequence(a[1..], b[1..]) {
        SubsequenceLength(a[1..], b[1..]);
      } else {
        SubsequenceLength(a, b[1..]);
      }
    }
  }

  lemma {:induction false} SubsequenceMembers(a: seq<Snapshot>, b: seq<Snapshot>)
    requires IsSubsequence(a, b)
    ensures forall i :: 0 <= i < |a| ==> a[i] in b
    decreases |b|
  {
    if a != [] {
      if a[0] == b[0] && IsSubsequence(a[1..], b[1..]) {
        SubsequenceMembers(a[1..], b[1..]);
        forall i | 0 < i < |a| ensures a[i] in b {
          assert a[i] == a[1..][i - 1];
        }
      } else {
        SubsequenceMembers(a, b[1..]);
      }
    }
  }

  lemma {:induction false} SubsequenceSorted(a: seq<Snapshot>, b: seq<Snapshot>)
    requires IsSubsequence(a, b) && Sorted(b)
    ensures Sorted(a)
    decreases |b|
  {
    if a != [] {
      if a[0] == b[0] && IsSubsequence(a[1..], b[1..]) {
        SubsequenceSorted(a[1..], b[1..]);
        SubsequenceMembers(a[1..], b[1..]);
        forall j | 0 < j < |a| ensures a[0].timestamp <= a[j].timestamp {
          assert a[j] == a[1..][j - 1];
        }
      } else {
        SubsequenceSorted(a, b[1..]);
      }
    }
  }

  /** The sequence fact behind one step of PaginateFacts: a page, followed by
      a subsequence of what comes after the skipped records, is a subsequence
      of the whole, and is all of it exactly when nothing was skipped and the
      rest is complete. */
  lemma {:induction false} PaginateStep(m: seq<Snapshot>, page: seq<Snapshot>, skipped: seq<Snapshot>,
                                      next: seq<Snapshot>, restResult: seq<Snapshot>)
    requires m == page + (skipped + next)
    requires IsSubsequence(restResult, next)
    ensures IsSubsequence(page + restResult, m)
    ensures page + restResult == m <==> skipped == [] && restResult == next
  {
    SubsequencePrepend(restResult, skipped, next);
    SubsequenceCommonPrefix(page, restResult, skipped + next);
    if page + restResult == m {
      SubsequenceLength(restResult, next);
      assert restResult == (page + restResult)[|page|..];
      assert skipped + next == m[|page|..];
    }
    if skipped == [] && restResult == next {
      assert skipped + next == next;
    }
  }

  /** Paging through an ascending sequence yields it with at most some
      records left out, never repeats one and keeps the order; it yields every
      record exactly when no page ends inside a run of equal timestamps. */
  lemma {:induction false} PaginateFacts(m: seq<Snapshot>)
    requires Sorted(m)
    ensures IsSubsequence(Paginate(m), m)
    ensures Paginate(m) == m <==> NoRunSplit(m)
    decreases |m|
  {
    var page := Take(m, PAGE_SIZE);
    if page != [] {
      var high := Last(page).timestamp + 1;
      var next := Above(m, high);
      AboveShrinks(m, high, |page| - 1);
      AboveSorted(m, high);
      assert Paginate(m) == page + Paginate(next);
      assert NoRunSplit(m) == ((|page| == |m| || m[|page|].timestamp != Last(page).timestamp) && NoRunSplit(next));
      PaginateFacts(next);
      var skipped := PageSplit(m);
      PaginateStep(m, page, skipped, next, Paginate(next));
    }
  }

  lemma PaginateCons(m: seq<Snapshot>)
    requires Take(m, PAGE_SIZE) != []
    ensures var page := Take(m, PAGE_SIZE);
            Paginate(m) == page + Paginate(Above(m, Last(page).timestamp + 1))
  {
  }

  /** What is selected at the next watermark is what remains of the current
      selection past the last timestamp of its page. */
  lemma MatchingNext(records: seq<Snapshot>, blockNumber: Option<int>, watermark: int)
    requires PageAt(records, blockNumber, watermark) != []
    ensures var m := Matching(records, blockNumber, watermark);
            var page := PageAt(records, blockNumber, watermark);
            Matching(records, blockNumber, Last(page).timestamp + 1) == Above(m, Last(page).timestamp + 1)
  {
    var m := Matching(records, blockNumber, watermark);
    var page := PageAt(records, blockNumber, watermark);
    assert Last(page) == m[|page| - 1];
    AboveMembers(InBlock(records, blockNumber), watermark);
    AboveAbove(InBlock(records, blockNumber), watermark, Last(page).timestamp + 1);
  }

  /** The records gathered from a trace: its first page, then those gathered
      from the rest of the trace. */
  lemma GatheredCons(records: seq<Snapshot>, blockNumber: Option<int>, watermark: int)
    requires PageAt(records, blockNumber, watermark) != []
    ensures var page := PageAt(records, blockNumber, watermark);
            var t := Trace(records, blockNumber, watermark);
            var rest := Trace(records, blockNumber, Last(page).timestamp + 1);
            Gathered(t, |t| - 1) == page + Gathered(rest, |rest| - 1)
  {
    var page := PageAt(records, blockNumber, watermark);
    var rest := Trace(records, blockNumber, Last(page).timestamp + 1);
    TraceCons(records, blockNumber, watermark);
    GatheredPrepend(Response(200, false, page), rest, |rest| - 1);
  }

  /** The records a session gathers from the dataset server are what paging
      through the selected records yields. */
  lemma {:induction false} TraceRecords(records: seq<Snapshot>, blockNumber: Option<int>, watermark: int)
    ensures var t := Trace(records, blockNumber, watermark);
            Gathered(t, |t| - 1) == Paginate(Matching(records, blockNumber, watermark))
    decreases |Matching(records, blockNumber, watermark)|
  {
    var t := Trace(records, blockNumber, watermark);
    var m := Matching(records, blockNumber, watermark);
    var page := PageAt(records, blockNumber, watermark);
    if page != [] {
      var high := Last(page).timestamp + 1;
      NextWatermarkShrinks(records, blockNumber, watermark);
      TraceRecords(records, blockNumber, high);
      GatheredCons(records, blockNumber, watermark);
      MatchingNext(records, blockNumber, watermark);
      PaginateCons(m);
    }
  }

  /** The records a whole session returns from the dataset server are the
      selected records with at most some records left out: no
      record twice, none invented, ascending by timestamp. They are all of the
      selected records if and only if no page ends inside a run of equal
      timestamps. */
  lemma SessionResult(records: seq<Snapshot>, blockNumber: Option<int>)
    requires Sorted(records)
    ensures var t := Script(records, blockNumber);
            EndsSession(t)
            && var result := Gathered(t, StopIndex(t));
               var selected := Matching(records, blockNumber, 0);
               IsSubsequence(result, selected)
               && Sorted(result)
               && (result == selected <==> NoRunSplit(selected))
  {
    var t := Script(records, blockNumber);
    var selected := Matching(records, blockNumber, 0);
    ScriptEnds(records, blockNumber);
    TraceRecords(records, blockNumber, 0);
    MatchingSorted(records, blockNumber, 0);
    PaginateFacts(selected);
    SubsequenceSorted(Paginate(selected), selected);
  }

  /** Every record of the j-th reply of the script is at or above the j-th watermark. */
  lemma ReplyAbove(records: seq<Snapshot>, blockNumber: Option<int>, j: nat, b: nat)
    requires j < |Script(records, blockNumber)| && b < |Script(records, blockNumber)[j].snapshots|
    ensures var t := Script(records, blockNumber);
            t[j].snapshots[b].timestamp >= Watermark(t, j)
  {
    var t := Script(records, blockNumber);
    ScriptReply(records, blockNumber, j);
    var m := Matching(records, blockNumber, Watermark(t, j));
    AboveMembers(InBlock(records, blockNumber), Watermark(t, j));
    assert t[j].snapshots[b] == m[b];
  }

  /** In an ascending dataset every record of a page that is followed by
      another request lies below that request's watermark. */
  lemma ReplyBelowNext(records: seq<Snapshot>, blockNumber: Option<int>, i: nat, a: nat)
    requires Sorted(records)
    requires i + 1 < |Script(records, blockNumber)| && a < |Script(records, blockNumber)[i].snapshots|
    ensures var t := Script(records, blockNumber);
            t[i].snapshots[a].timestamp < Watermark(t, i + 1)
  {
    var t := Script(records, blockNumber);
    ScriptReply(records, blockNumber, i);
    var m := Matching(records, blockNumber, Watermark(t, i));
    MatchingSorted(records, blockNumber, Watermark(t, i));
    var page := t[i].snapshots;
    assert page[a] == m[a] && Last(page) == m[|page| - 1];
  }

  lemma {:induction false} WatermarkMonotone(records: seq<Snapshot>, blockNumber: Option<int>, i: nat, j: nat)
    requires i <= j < |Script(records, blockNumber)|
    ensures var t := Script(records, blockNumber);
            Watermark(t, i) <= Watermark(t, j)
    decreases j - i
  {
    if i < j {
      var t := Script(records, blockNumber);
      WatermarkMonotone(records, blockNumber, i, j - 1);
      WatermarkIncreases(records, blockNumber);
      assert Watermark(t, j - 1) < Watermark(t, j);
    }
  }

  /** Under an ascending dataset every record a session appends is strictly
      newer than every record appended from an earlier page, so no record is
      appended twice. */
  lemma PagesAscend(records: seq<Snapshot>, blockNumber: Option<int>)
    requires Sorted(records)
    ensures var t := Script(records, blockNumber);
            forall i, j, a, b ::
              0 <= i < j < |t| && 0 <= a < |t[i].snapshots| && 0 <= b < |t[j].snapshots| ==>
                t[i].snapshots[a].timestamp < t[j].snapshots[b].timestamp
  {
    var t := Script(records, blockNumber);
    forall i, j, a, b | 0 <= i < j < |t| && 0 <= a < |t[i].snapshots| && 0 <= b < |t[j].snapshots|
      ensures t[i].snapshots[a].timestamp < t[j].snapshots[b].timestamp
    {
      ReplyBelowNext(records, blockNumber, i, a);
      WatermarkMonotone(records, blockNumber, i + 1, j);
      ReplyAbove(records, blockNumber, j, b);
    }
  }
}
