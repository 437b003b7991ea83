/** The content blocks a lesson is created with. Both lesson services (NovillusPath and
    SourceGuild) run the same loop: visit the requested blocks sorted by their order (a
    stable sort, so blocks with equal orders keep their request order), turn each Text or
    Video request into its entity with the request's order, and refuse any other kind. */
module LessonContent {
  import opened Domain

  /** The entity a block request becomes, if its kind is supported. */
  function Convert(b: BlockRequest): (r: Option<ContentBlock>)
    ensures r.Some? <==> !b.kind.OtherKind?
    ensures r.Some? ==> r.value.order == b.order
  {
    match b.kind
    case Text => Some(TextContent(b.order, b.body))
    case Video => Some(VideoContent(b.order, b.body))
    case OtherKind(_) => None
  }

  predicate Supported(b: BlockRequest) {
    !b.kind.OtherKind?
  }

  /** The requests are in non-decreasing order. */
  predicate RequestsSorted(requests: seq<BlockRequest>) {
    forall k, l :: 0 <= k < l < |requests| ==> requests[k].order <= requests[l].order
  }

  /** Insert `b` into sorted requests after every request whose order is not greater. */
  function InsertAfterEqual(sorted: seq<BlockRequest>, b: BlockRequest): (r: seq<BlockRequest>)
    ensures |r| == |sorted| + 1
    decreases |sorted|
  {
    if sorted == [] || sorted[|sorted| - 1].order <= b.order then sorted + [b]
    else InsertAfterEqual(sorted[..|sorted| - 1], b) + [sorted[|sorted| - 1]]
  }

  /** The stable sort by order (`OrderBy(cb => cb.Order)`), as an insertion sort. */
  function SortByOrder(requests: seq<BlockRequest>): (r: seq<BlockRequest>)
    ensures |r| == |requests|
    decreases |requests|
  {
    if requests == [] then []
    else InsertAfterEqual(SortByOrder(requests[..|requests| - 1]), requests[|requests| - 1])
  }

  /** The requests with order `v`, in the order they come. */
  function WithOrder(requests: seq<BlockRequest>, v: int): seq<BlockRequest>
    decreases |requests|
  {
    if requests == [] then []
    else (WithOrder(requests[..|requests| - 1], v) +
          if requests[|requests| - 1].order == v then [requests[|requests| - 1]] else [])
  }

  lemma {:induction false} WithOrderAppend(a: seq<BlockRequest>, b: seq<BlockRequest>, v: int)
    ensures WithOrder(a + b, v) == WithOrder(a, v) + WithOrder(b, v)
    decreases |b|
  {
    if b == [] {
      assert a + b == a;
    } else {
      assert (a + b)[..|a + b| - 1] == a + b[..|b| - 1];
      WithOrderAppend(a, b[..|b| - 1], v);
    }
  }

  lemma {:induction false} InsertKeepsSorted(sorted: seq<BlockRequest>, b: BlockRequest)
    requires RequestsSorted(sorted)
    ensures RequestsSorted(InsertAfterEqual(sorted, b))
    ensures forall k :: 0 <= k < |InsertAfterEqual(sorted, b)| ==>
      InsertAfterEqual(sorted, b)[k] == b || InsertAfterEqual(sorted, b)[k] in sorted
    decreases |sorted|
  {
    if sorted == [] || sorted[|sorted| - 1].order <= b.order {
    } else {
      var front := sorted[..|sorted| - 1];
      InsertKeepsSorted(front, b);
      var r := InsertAfterEqual(front, b);
      forall k | 0 <= k < |r| ensures r[k].order <= sorted[|sorted| - 1].order {
        if r[k] != b {
          var j :| 0 <= j < |front| && front[j] == r[k];
        }
      }
    }
  }

  lemma WithOrderSingle(b: BlockRequest, v: int)
    ensures WithOrder([b], v) == if b.order == v then [b] else []
  {
    assert [b][..0] == [];
  }

  /** Inserting keeps, among the requests of each order, the sorted ones first and `b` last. */
  lemma {:induction false} InsertIsStable(sorted: seq<BlockRequest>, b: BlockRequest, v: int)
    requires RequestsSorted(sorted)
    ensures WithOrder(InsertAfterEqual(sorted, b), v) == WithOrder(sorted, v) + WithOrder([b], v)
    decreases |sorted|
  {
    if sorted == [] || sorted[|sorted| - 1].order <= b.order {
      WithOrderAppend(sorted, [b], v);
    } else {
      var front := sorted[..|sorted| - 1];
      var last := sorted[|sorted| - 1];
      var inserted := InsertAfterEqual(front, b);
      calc {
        WithOrder(InsertAfterEqual(sorted, b), v);
      == { assert InsertAfterEqual(sorted, b) == inserted + [last]; }
        WithOrder(inserted + [last], v);
      == { WithOrderAppend(inserted, [last], v); }
        WithOrder(inserted, v) + WithOrder([last], v);
      == { assert RequestsSorted(front); InsertIsStable(front, b, v); }
        WithOrder(front, v) + WithOrder([b], v) + WithOrder([last], v);
      == { WithOrderSingle(b, v); WithOrderSingle(last, v); }
        WithOrder(front, v) + WithOrder([last], v) + WithOrder([b], v);
      == { assert sorted == front + [last]; WithOrderAppend(front, [last], v); }
        WithOrder(sorted, v) + WithOrder([b], v);
      }
    }
  }

  /** The sort puts the requests in non-decreasing order. */
  lemma {:induction false} SortIsSorted(requests: seq<BlockRequest>)
    ensures RequestsSorted(SortByOrder(requests))
    decreases |requests|
  {
    if requests != [] {
      SortIsSorted(requests[..|requests| - 1]);
      InsertKeepsSorted(SortByOrder(requests[..|requests| - 1]), requests[|requests| - 1]);
    }
  }

  /** The sort is stable: the requests of each order keep their request order; in
      particular it is a permutation of the requests. */
  lemma {:induction false} SortIsStable(requests: seq<BlockRequest>, v: int)
    ensures WithOrder(SortByOrder(requests), v) == WithOrder(requests, v)
    decreases |requests|
  {
    if requests != [] {
      var front := requests[..|requests| - 1];
      var last := requests[|requests| - 1];
      SortIsStable(front, v);
      SortIsSorted(front);
      InsertIsStable(SortByOrder(front), last, v);
      WithOrderSingle(last, v);
    }
  }

  /** A request is in the sorted requests exactly when it is among the requests. */
  lemma SortKeepsMembers(requests: seq<BlockRequest>, b: BlockRequest)
    ensures b in SortByOrder(requests) <==> b in requests
  {
    SortIsStable(requests, b.order);
    WithOrderMembers(SortByOrder(requests), b);
    WithOrderMembers(requests, b);
  }

  lemma {:induction false} WithOrderMembers(requests: seq<BlockRequest>, b: BlockRequest)
    ensures b in WithOrder(requests, b.order) <==> b in requests
    decreases |requests|
  {
    if requests != [] {
      var front := requests[..|requests| - 1];
      WithOrderMembers(front, b);
      assert requests == front + [requests[|requests| - 1]];
    }
  }

  /** The blocks are in non-decreasing order. */
  predicate SortedByOrder(blocks: seq<ContentBlock>) {
    forall k, l :: 0 <= k < l < |blocks| ==> blocks[k].order <= blocks[l].order
  }

  /** Build the blocks of a new lesson: `None` (a bad request) when any requested kind is
      unsupported, otherwise the converted requests in the stable order by request order. */
  method BuildBlocks(requests: seq<BlockRequest>) returns (r: Option<seq<ContentBlock>>)
    ensures r.Some? <==> forall i :: 0 <= i < |requests| ==> Supported(requests[i])
    ensures r.Some? ==> |r.value| == |requests|
    ensures r.Some? ==> forall k :: 0 <= k < |r.value| ==> Convert(SortByOrder(requests)[k]) == Some(r.value[k])
    ensures r.Some? ==> SortedByOrder(r.value)
  {
    var sorted := SortByOrder(requests);
    SortIsSorted(requests);
    var blocks: seq<ContentBlock> := [];
    for k := 0 to |sorted|
      invariant |blocks| == k
      invariant forall j :: 0 <= j < k ==> Convert(sorted[j]) == Some(blocks[j])
    {
      var block := Convert(sorted[k]);
      if block.None? {
        SortKeepsMembers(requests, sorted[k]);
        return None;
      }
      blocks := blocks + [block.value];
    }
    forall i | 0 <= i < |requests| ensures Supported(requests[i]) {
      SortKeepsMembers(requests, requests[i]);
      var j :| 0 <= j < |sorted| && sorted[j] == requests[i];
    }
    return Some(blocks);
  }
}
