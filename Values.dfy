/**
 The values that travel in the `eth` sub-protocol as far as request validation
 sees them: byte strings, 32-byte hashes, block headers, and the untyped
 Python object a peer's reply arrives as.
 */
module Values {

  newtype byte = x: int | 0 <= x < 256

  /** A Python `bytes` object. */
  type Bytes = seq<byte>

  /** A 32-byte hash (`eth_typing.Hash32`), the width of a keccak-256 digest. */
  type Hash32 = h: Bytes | |h| == 32 witness seq(32, _ => 0)

  /** `eth_typing.BlockIdentifier`: a block number or a block hash. */
  datatype BlockIdentifier = BlockNumber(number: nat) | BlockHash(hash: Hash32)

  /** An `eth.rlp.headers.BlockHeader`; its fields are not interpreted here. */
  datatype BlockHeader = BlockHeader(fields: seq<Bytes>)

  /**
   A reply as the request layer receives it, typed `Any`: a tuple (any
   instance of `tuple`) of further values, a block header, a byte string,
   or any other object (a list, an integer, `None`, a `bytearray`, ...).
   */
  datatype Value =
    | TupleValue(items: seq<Value>)
    | HeaderValue(header: BlockHeader)
    | BytesValue(data: Bytes)
    | OtherValue(typeName: string)

  /** `all(isinstance(item, BlockHeader) for item in items)` */
  predicate AllHeaders(items: seq<Value>) {
    forall i :: 0 <= i < |items| ==> items[i].HeaderValue?
  }

  /** `all(isinstance(item, bytes) for item in items)` */
  predicate AllBytes(items: seq<Value>) {
    forall i :: 0 <= i < |items| ==> items[i].BytesValue?
  }

  /** The cast `cast(Tuple[BlockHeader, ...], response)`: the same items, as headers. */
  function HeadersOf(items: seq<Value>): (headers: seq<BlockHeader>)
    requires AllHeaders(items)
    ensures |headers| == |items|
    ensures forall i :: 0 <= i < |items| ==> items[i] == HeaderValue(headers[i])
  {
    seq(|items|, i requires 0 <= i < |items| => items[i].header)
  }

  /** The cast `cast(Tuple[bytes, ...], response)`: the same items, as byte strings. */
  function BytesOf(items: seq<Value>): (nodes: seq<Bytes>)
    requires AllBytes(items)
    ensures |nodes| == |items|
    ensures forall i :: 0 <= i < |items| ==> items[i] == BytesValue(nodes[i])
  {
    seq(|items|, i requires 0 <= i < |items| => items[i].data)
  }
}
