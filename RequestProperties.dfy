/**
 What the two reply validators promise, stated against independent
 definitions: which replies get past the type checks, what the header
 validator adds to the inherited header checks (nothing), and exactly which
 node-data replies are accepted, with which error the others are refused.
 */
module RequestProperties {
  import opened Values
  import opened Requests
  import Images

  // ---------------------------------------------------------------------------
  // Size limits

  /** `max_size` is a property of the request kind: any two header requests share it. */
  lemma HeaderMaxSizeIgnoresRequest(limits: FetchLimits, req: HeaderRequest, req': HeaderRequest)
    ensures HeaderMaxSize(req, limits) == HeaderMaxSize(req', limits)
  {
  }

  /** `max_size` is a property of the request kind: any two node-data requests share it. */
  lemma NodeDataMaxSizeIgnoresRequest(limits: FetchLimits, req: NodeDataRequest, req': NodeDataRequest)
    ensures NodeDataMaxSize(req, limits) == NodeDataMaxSize(req', limits)
  {
  }

  // ---------------------------------------------------------------------------
  // Block headers

  /** The tuple a peer sends for a sequence of headers. */
  function HeaderTuple(headers: seq<BlockHeader>): (v: Value)
    ensures v.TupleValue? && AllHeaders(v.items) && HeadersOf(v.items) == headers
  {
    TupleValue(seq(|headers|, i requires 0 <= i < |headers| => HeaderValue(headers[i])))
  }

  /**
   The type checks come first: a reply that is not a tuple of headers is
   refused whatever the request and whatever the inherited header checks
   would have said.
   */
  lemma HeaderTypeChecksFirst(req: HeaderRequest, req': HeaderRequest, response: Value,
                              check: HeaderCheck, check': HeaderCheck)
    requires !(response.TupleValue? && AllHeaders(response.items))
    ensures ValidateHeaderResponse(req, response, check) == ValidateHeaderResponse(req', response, check')
    ensures ValidateHeaderResponse(req, response, check) in {Rejected(NotTuple), Rejected(BadItemType)}
  {
  }

  /**
   For a tuple of headers the outcome is exactly that of the inherited header
   checks on those headers: the reply validator adds nothing of its own.
   */
  lemma HeaderDefersToHeaderCheck(req: HeaderRequest, response: Value, check: HeaderCheck)
    requires response.TupleValue? && AllHeaders(response.items)
    ensures ValidateHeaderResponse(req, response, check) == check(req, HeadersOf(response.items))
  {
  }

  /** A header reply is accepted exactly when it is a tuple of headers that the header checks accept. */
  lemma HeaderAcceptedIff(req: HeaderRequest, response: Value, check: HeaderCheck)
    ensures ValidateHeaderResponse(req, response, check).Accepted? <==>
      exists headers :: response == HeaderTuple(headers) && check(req, headers).Accepted?
  {
    if response.TupleValue? && AllHeaders(response.items) {
      var headers := HeadersOf(response.items);
      assert response.items == HeaderTuple(headers).items;
    }
  }

  // ---------------------------------------------------------------------------
  // Node data

  /**
   An acceptable `NodeData` reply, by positions: no two returned nodes have
   the same hash, and every returned node's hash was requested. Requested
   nodes that are missing from the reply do not matter.
   */
  predicate NodesAcceptable(nodeHashes: seq<Hash32>, nodes: seq<Bytes>, keccak: Keccak) {
    && (forall i, j :: 0 <= i < j < |nodes| ==> keccak(nodes[i]) != keccak(nodes[j]))
    && (forall i :: 0 <= i < |nodes| ==> keccak(nodes[i]) in nodeHashes)
  }

  /** The number of returned nodes whose hash was not requested. */
  function UnrequestedCount(nodeHashes: seq<Hash32>, nodes: seq<Bytes>, keccak: Keccak): nat {
    Images.CountOutside(nodes, keccak, set h | h in nodeHashes)
  }

  /**
   The type checks come first: a reply that is not a tuple of byte strings is
   refused before any node is hashed, so neither the hash function nor the
   requested hashes affect the outcome.
   */
  lemma NodeDataTypeChecksFirst(req: NodeDataRequest, req': NodeDataRequest, response: Value,
                                keccak: Keccak, keccak': Keccak)
    requires !(response.TupleValue? && AllBytes(response.items))
    ensures ValidateNodeDataResponse(req, response, keccak) == ValidateNodeDataResponse(req', response, keccak')
    ensures ValidateNodeDataResponse(req, response, keccak) in {Rejected(NotTuple), Rejected(BadItemType)}
  {
  }

  /** For a tuple of byte strings the outcome is that of `ValidateNodes` on those byte strings. */
  lemma NodeDataDefersToValidateNodes(req: NodeDataRequest, response: Value, keccak: Keccak)
    requires response.TupleValue? && AllBytes(response.items)
    ensures ValidateNodeDataResponse(req, response, keccak) == ValidateNodes(req, BytesOf(response.items), keccak)
  {
  }

  /** An empty reply is always accepted, whatever was requested, even nothing. */
  lemma EmptyReplyAccepted(req: NodeDataRequest, keccak: Keccak)
    ensures ValidateNodeDataResponse(req, TupleValue([]), keccak) == Accepted
  {
  }

  /**
   A reply is refused as a duplicate exactly when two of its nodes
   have the same hash, whether or not their hashes were requested: this check
   comes before the one for unexpected nodes.
   */
  lemma DuplicateIff(req: NodeDataRequest, nodes: seq<Bytes>, keccak: Keccak)
    ensures ValidateNodes(req, nodes, keccak) == Rejected(DuplicateNodes) <==>
      exists i, j :: 0 <= i < j < |nodes| && keccak(nodes[i]) == keccak(nodes[j])
  {
    Images.ImageSizeIffInjective(nodes, keccak);
  }

  /** A reply is accepted exactly when it is acceptable by positions. */
  lemma AcceptedIff(req: NodeDataRequest, nodes: seq<Bytes>, keccak: Keccak)
    ensures ValidateNodes(req, nodes, keccak).Accepted? <==> NodesAcceptable(req.nodeHashes, nodes, keccak)
  {
    Images.ImageSizeIffInjective(nodes, keccak);
    if nodes != [] && Images.InjectiveOn(nodes, keccak) {
      var expected := set h | h in req.nodeHashes;
      var actual := Images.Image(nodes, keccak);
      if actual - expected == {} {
        forall i | 0 <= i < |nodes| ensures keccak(nodes[i]) in req.nodeHashes {
          assert nodes[i] in nodes;
          assert keccak(nodes[i]) in actual;
          assert keccak(nodes[i]) !in actual - expected;
        }
      } else {
        var h :| h in actual - expected;
        var n :| n in nodes && keccak(n) == h;
        var i :| 0 <= i < |nodes| && nodes[i] == n;
        assert keccak(nodes[i]) !in req.nodeHashes;
      }
    }
  }

  /**
   A reply with distinct hashes is refused for unexpected nodes exactly when
   some returned node was not requested, and the error then counts the
   returned nodes that were not requested.
   */
  lemma UnexpectedIff(req: NodeDataRequest, nodes: seq<Bytes>, keccak: Keccak)
    ensures var r := ValidateNodes(req, nodes, keccak);
      r.Rejected? && r.error.UnexpectedNodes? <==>
        && (forall i, j :: 0 <= i < j < |nodes| ==> keccak(nodes[i]) != keccak(nodes[j]))
        && (exists i :: 0 <= i < |nodes| && keccak(nodes[i]) !in req.nodeHashes)
    ensures var r := ValidateNodes(req, nodes, keccak);
      r.Rejected? && r.error.UnexpectedNodes? ==> r.error.count == UnrequestedCount(req.nodeHashes, nodes, keccak)
  {
    AcceptedIff(req, nodes, keccak);
    DuplicateIff(req, nodes, keccak);
    if Images.InjectiveOn(nodes, keccak) {
      Images.InjectiveImageOutside(nodes, keccak, set h | h in req.nodeHashes);
    }
  }

  /** Only which hashes were requested matters: their order and any repetition among them do not. */
  lemma RequestedSetDecides(nodeHashes: seq<Hash32>, nodeHashes': seq<Hash32>, nodes: seq<Bytes>, keccak: Keccak)
    requires forall h :: h in nodeHashes <==> h in nodeHashes'
    ensures ValidateNodes(NodeDataRequest(nodeHashes), nodes, keccak) ==
            ValidateNodes(NodeDataRequest(nodeHashes'), nodes, keccak)
  {
    assert (set h | h in nodeHashes) == (set h | h in nodeHashes');
  }

  /** Asking for more never turns an accepted reply into a refused one. */
  lemma RequestingMoreKeepsAccepted(nodeHashes: seq<Hash32>, nodeHashes': seq<Hash32>, nodes: seq<Bytes>, keccak: Keccak)
    requires forall h :: h in nodeHashes ==> h in nodeHashes'
    requires ValidateNodes(NodeDataRequest(nodeHashes), nodes, keccak).Accepted?
    ensures ValidateNodes(NodeDataRequest(nodeHashes'), nodes, keccak).Accepted?
  {
    AcceptedIff(NodeDataRequest(nodeHashes), nodes, keccak);
    AcceptedIff(NodeDataRequest(nodeHashes'), nodes, keccak);
  }

  /** The outcome does not depend on the order in which the nodes are returned. */
  lemma PermutationInvariant(req: NodeDataRequest, nodes: seq<Bytes>, nodes': seq<Bytes>, keccak: Keccak)
    requires multiset(nodes) == multiset(nodes')
    ensures ValidateNodes(req, nodes, keccak) == ValidateNodes(req, nodes', keccak)
  {
    Images.ImageOfSubMultiset(nodes, nodes', keccak);
    Images.ImageOfSubMultiset(nodes', nodes, keccak);
    assert Images.Image(nodes, keccak) == Images.Image(nodes', keccak);
    assert |nodes| == |multiset(nodes)| == |nodes'|;
  }

  /**
   Any part of an accepted reply, in any order, is accepted too: a partial
   reply is never refused for what it leaves out.
   */
  lemma SubReplyAccepted(req: NodeDataRequest, part: seq<Bytes>, nodes: seq<Bytes>, keccak: Keccak)
    requires multiset(part) <= multiset(nodes)
    requires ValidateNodes(req, nodes, keccak).Accepted?
    ensures ValidateNodes(req, part, keccak).Accepted?
  {
    AcceptedIff(req, nodes, keccak);
    AcceptedIff(req, part, keccak);
    Images.InjectiveOnSubMultiset(part, nodes, keccak);
    forall i | 0 <= i < |part| ensures keccak(part[i]) in req.nodeHashes {
      assert part[i] in multiset(nodes);
      var k :| 0 <= k < |nodes| && nodes[k] == part[i];
    }
  }
}
