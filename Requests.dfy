/**
 The two `eth` sub-protocol requests whose replies the request layer checks
 before accepting them: `GetBlockHeaders` (reply `BlockHeaders`) and
 `GetNodeData` (reply `NodeData`, devp2p `eth/63`). Each request records its
 arguments; `ValidateHeaderResponse` and `ValidateNodeDataResponse` decide
 whether a peer's reply to it may be accepted. A `ValidationError` raised by
 the source is a `Rejected` outcome here; returning normally is `Accepted`.
 */
module Requests {
  import opened Values
  import Images

  /** The kinds of `p2p.exceptions.ValidationError` the validators raise. */
  datatype ValidationError =
    | NotTuple
    | BadItemType
    | DuplicateNodes
    | UnexpectedNodes(count: nat)
      /** raised by the inherited header checks, which are not part of this model */
    | InvalidHeaders(reason: string)

  datatype Outcome = Accepted | Rejected(error: ValidationError)

  /**
   The values of `constants.MAX_HEADERS_FETCH` and `constants.MAX_STATE_FETCH`,
   which live outside the modelled file.
   */
  datatype FetchLimits = FetchLimits(maxHeadersFetch: nat, maxStateFetch: nat)

  datatype Option<T> = None | Some(value: T)

  /**
   A `HeaderRequest`: its constructor only stores its four arguments.
   `maxHeaders` is `None` when the caller leaves it out.
   */
  datatype HeaderRequest = HeaderRequest(
    blockNumberOrHash: BlockIdentifier,
    maxHeaders: Option<int>,
    skip: int,
    reverse: bool)

  /** A `NodeDataRequest`: its constructor only stores the requested hashes. */
  datatype NodeDataRequest = NodeDataRequest(nodeHashes: seq<Hash32>)

  /**
   The check `BaseHeaderRequest.validate_headers` that a header request
   inherits; it is not part of this model, so every operation that needs it
   takes it as a parameter.
   */
  type HeaderCheck = (HeaderRequest, seq<BlockHeader>) -> Outcome

  /** The keccak-256 hash function, taken as given. */
  type Keccak = Bytes -> Hash32

  /** `HeaderRequest.max_size`: the same limit for every header request. */
  function HeaderMaxSize(req: HeaderRequest, limits: FetchLimits): nat {
    limits.maxHeadersFetch
  }

  /** `NodeDataRequest.max_size`: the same limit for every node-data request. */
  function NodeDataMaxSize(req: NodeDataRequest, limits: FetchLimits): nat {
    limits.maxStateFetch
  }

  /**
   `HeaderRequest.validate_response`: only a tuple all of whose items are
   block headers gets as far as the header checks, and for such a tuple the
   outcome is theirs.
   */
  function ValidateHeaderResponse(req: HeaderRequest, response: Value, validateHeaders: HeaderCheck): (r: Outcome)
    ensures !response.TupleValue? ==> r == Rejected(NotTuple)
    ensures response.TupleValue? && !AllHeaders(response.items) ==> r == Rejected(BadItemType)
  {
    if !response.TupleValue? then Rejected(NotTuple)
    else if !AllHeaders(response.items) then Rejected(BadItemType)
    else validateHeaders(req, HeadersOf(response.items))
  }

  /**
   `NodeDataRequest.validate_response`: only a tuple all of whose items are
   byte strings gets as far as `ValidateNodes`.
   */
  function ValidateNodeDataResponse(req: NodeDataRequest, response: Value, keccak: Keccak): (r: Outcome)
    ensures !response.TupleValue? ==> r == Rejected(NotTuple)
    ensures response.TupleValue? && !AllBytes(response.items) ==> r == Rejected(BadItemType)
  {
    if !response.TupleValue? then Rejected(NotTuple)
    else if !AllBytes(response.items) then Rejected(BadItemType)
    else ValidateNodes(req, BytesOf(response.items), keccak)
  }

  /**
   `NodeDataRequest.validate_nodes`: an empty reply is always valid; otherwise
   the hashes of the returned nodes must be pairwise distinct and must all be
   among the requested hashes.
   */
  function ValidateNodes(req: NodeDataRequest, nodes: seq<Bytes>, keccak: Keccak): (r: Outcome)
    ensures r.Accepted? || r == Rejected(DuplicateNodes) || r.error.UnexpectedNodes?
    ensures r.Rejected? ==> |nodes| > 0
    ensures r.Rejected? && r.error.UnexpectedNodes? ==> 0 < r.error.count <= |nodes|
  {
    if |nodes| == 0 then Accepted
    else
      var expected := set h | h in req.nodeHashes;
      var actual := Images.Image(nodes, keccak);
      if |actual| != |nodes| then Rejected(DuplicateNodes)
      else
        var unexpected := actual - expected;
        if unexpected != {} then Rejected(UnexpectedNodes(|unexpected|)) else Accepted
  }
}
