# Validating replies to `eth` requests

This project models how a Trinity node checks a peer's reply to two of its
devp2p `eth` sub-protocol requests before accepting it:

- a **header request** (`GetBlockHeaders`, reply `BlockHeaders`), and
- a **node-data request** (`GetNodeData`, reply `NodeData`, protocol `eth/63`).

Each request is a plain record of its constructor's arguments:
`HeaderRequest(blockNumberOrHash, maxHeaders, skip, reverse)` and
`NodeDataRequest(nodeHashes)`. Each kind's `max_size` is one fetch limit,
`HeaderMaxSize` or `NodeDataMaxSize`, read from a `FetchLimits` record. The
limit is the same for every request of that kind.

A reply arrives as an untyped Python object, modelled by `Values.Value`: a
tuple, a block header, a byte string, or any other object. Validation either
raises a `ValidationError` or returns normally. Here it yields an `Outcome`:
`Accepted`, or `Rejected(e)` with one of these error kinds:

- `NotTuple`
- `BadItemType`
- `DuplicateNodes`
- `UnexpectedNodes(count)`
- `InvalidHeaders(reason)`, for the inherited header checks

A header reply must be a tuple of block headers. The inherited header checks
then decide its outcome alone.

A node-data reply must be a tuple of byte strings. An empty one is always
accepted. A non-empty one is refused as a duplicate if two of its nodes have
the same keccak hash. Otherwise it is refused if any node's hash was not
requested. Missing nodes are never a reason to refuse. The proofs state
acceptance by positions (`RequestProperties.NodesAcceptable`): the hashes are
pairwise distinct and every one of them was requested. They also show that
acceptance ignores the order of the reply and survives dropping nodes from it.

Modules:

- `Values`: bytes, hashes, headers, and the reply object.
- `Images`: `set(map(f, s))`, and the fact that its size equals `len(s)`
  exactly when `f` is injective on `s`.
- `Requests`: the requests and the validators of
  `trinity/protocol/eth/requests.py`.
- `RequestProperties`: what the validators promise, proved.

Two collaborators are parameters of the validators, not definitions:

- the keccak-256 hash function (`Requests.Keccak`);
- the inherited `BaseHeaderRequest.validate_headers` (`Requests.HeaderCheck`).

## Model

| member | source | states |
|---|---|---|
| `Requests.ValidateHeaderResponse` | trinity/protocol/eth/requests.py:41-49 | A reply that is not a tuple is refused with `NotTuple`. A tuple with any item that is not a block header is refused with `BadItemType`. |
| `RequestProperties.HeaderMaxSizeIgnoresRequest` | trinity/protocol/eth/requests.py:27-29 | `HeaderMaxSize` gives any two header requests the same limit: it is one constant for the kind and does not depend on the request. |
| `RequestProperties.NodeDataMaxSizeIgnoresRequest` | trinity/protocol/eth/requests.py:54-56 | `NodeDataMaxSize` gives any two node-data requests the same limit: it is one constant for the kind and does not depend on the request. |
| `Values.HeadersOf` | trinity/protocol/eth/requests.py:50 | The cast to a tuple of headers keeps the same items in the same order: it has the same length, and each item is the header at the same position. |
| `Values.BytesOf` | trinity/protocol/eth/requests.py:69 | The cast to a tuple of byte strings keeps the same items in the same order: it has the same length, and each item is the byte string at the same position. |
| `RequestProperties.HeaderTypeChecksFirst` | trinity/protocol/eth/requests.py:45-49 | A reply that is not a tuple of headers gets `NotTuple` or `BadItemType`. The request and the header checks do not affect that outcome, so the type checks run first. |
| `RequestProperties.HeaderDefersToHeaderCheck` | trinity/protocol/eth/requests.py:50 | For any tuple whose items are all headers, the outcome is exactly what the inherited header checks return for those headers. |
| `RequestProperties.HeaderAcceptedIff` | trinity/protocol/eth/requests.py:41-50 | A header reply is accepted if and only if it is a tuple of headers that the header checks accept. |
| `Requests.ValidateNodeDataResponse` | trinity/protocol/eth/requests.py:61-68 | A reply that is not a tuple is refused with `NotTuple`. A tuple with any item that is not `bytes` is refused with `BadItemType`. |
| `RequestProperties.NodeDataTypeChecksFirst` | trinity/protocol/eth/requests.py:65-68 | A badly typed reply gets `NotTuple` or `BadItemType` whatever the hash function and the requested hashes are, so these checks come before any hashing. |
| `RequestProperties.NodeDataDefersToValidateNodes` | trinity/protocol/eth/requests.py:69 | For any tuple whose items are all byte strings, the outcome is that of `ValidateNodes` on those byte strings. |
| `Requests.ValidateNodes` | trinity/protocol/eth/requests.py:71-89 | The outcome is `Accepted`, `DuplicateNodes` or `UnexpectedNodes`. Only a non-empty reply is refused. An unexpected-node count lies between 1 and the number of nodes. |
| `RequestProperties.EmptyReplyAccepted` | trinity/protocol/eth/requests.py:72-74 | An empty tuple is accepted for every request, including one for no hashes. |
| `RequestProperties.DuplicateIff` | trinity/protocol/eth/requests.py:77-82 | The outcome is `DuplicateNodes` if and only if two positions of the reply hash alike. Whether those hashes were requested does not matter, so this check takes precedence. |
| `RequestProperties.AcceptedIff` | trinity/protocol/eth/requests.py:71-89 | A reply is accepted if and only if its hashes are pairwise distinct by position and each was requested. Nothing requires every requested node to be present. |
| `RequestProperties.UnexpectedIff` | trinity/protocol/eth/requests.py:84-89 | The outcome is `UnexpectedNodes` if and only if the hashes are distinct and some node was not requested. Its count is the number of returned nodes whose hash was not requested. |
| `RequestProperties.RequestedSetDecides` | trinity/protocol/eth/requests.py:77 | Two requests with the same set of hashes give the same outcome. Order and repetition among the requested hashes have no effect. |
| `RequestProperties.RequestingMoreKeepsAccepted` | trinity/protocol/eth/requests.py:77-89 | A reply accepted for some hashes is still accepted for any request whose hashes include them. |
| `RequestProperties.PermutationInvariant` | trinity/protocol/eth/requests.py:77-89 | Two replies with the same nodes in any order give the same outcome. |
| `RequestProperties.SubReplyAccepted` | trinity/protocol/eth/requests.py:77-89 | Any part of an accepted reply, in any order, is accepted too. |
| `Images.ImageSizeIffInjective` | trinity/protocol/eth/requests.py:78-80 | `len(set(map(f, s))) == len(s)` holds if and only if `f` gives distinct values at distinct positions of `s`. |
| `Images.InjectiveImageOutside` | trinity/protocol/eth/requests.py:84-88 | If `f` is injective on `s`, the number of values of `s` outside a set equals the number of elements of `s` whose value lies outside it. |

## Left out

- `BaseHeaderRequest.validate_headers` is not part of this model. Its source is outside the modelled file, so it is a parameter of `ValidateHeaderResponse`.
- keccak-256 is a parameter, not an implementation. Apart from the duplicate test, nothing is assumed about its collisions.
- `constants.MAX_HEADERS_FETCH` and `constants.MAX_STATE_FETCH` are outside the modelled file. They are the fields of `FetchLimits`. Neither validator in `requests.py` compares a reply's size with them, and neither does the model.
- The request fields take their types from the source's annotations, not from what Python accepts at run time. In `BlockIdentifier`, a block number is a `nat` and a block hash a `Hash32`, and `nodeHashes` holds `Hash32` values. `eth_typing` declares these as unchecked aliases of `int` and `bytes`. No outcome depends on this: the validators never read the block identifier, and a requested hash that is not 32 bytes long can never equal a keccak digest.
- `HeaderCheck` gets no `FetchLimits`. If the inherited header checks use `max_size`, that use must be built into the function passed in.
- Exception messages are not modelled, only error kinds. The count in `UnexpectedNodes` is the number the message reports. The node-data messages for a non-tuple and a badly typed item reuse the header request's wording; that wording is not represented.
- Python objects are reduced to tuples, block headers, byte strings and "other". A tuple subclass counts as a tuple and a header subclass as a header. A `bytearray`, a list or any other object counts as "other".
- RequestProperties.PermutationInvariant: stated on the byte strings that pass the type checks (`ValidateNodes`), not on the raw tuple. `NodeDataDefersToValidateNodes` links the two.
- RequestProperties.SubReplyAccepted: stated on `ValidateNodes` in the same way.
- The request managers (`trinity/protocol/eth/managers.py`) are left out. They build these requests and await replies asynchronously through a request manager that is not part of this model.
- Process start-up (`trinity/main.py`), database wiring (`trinity/db/`) and the EVM state tests (`tests/test_ewasm.py`) are left out. They are I/O and process plumbing, or they exercise the execution engine, not reply validation.
