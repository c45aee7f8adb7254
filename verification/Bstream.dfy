/** Bstream blocks with a packed Stellar payload, and the stores that hold them. */
module Bstream {
  import opened Base
  import opened TextCodecs
  import M = Messages
  import RT = RoundTrip

  /** A packed message: the name its type URL ends in, and its bytes. */
  datatype Any = Any(typeName: string, value: bytes)

  datatype BstreamBlock = BstreamBlock(
    number: uint64, id: string, parentId: string, timestamp: Option<M.Timestamp>,
    libNum: uint64, parentNum: uint64, payload: Any)

  /** A bstream block the comparison tool rewrites in memory. */
  class BlockCell {
    const number: uint64
    var id: string
    var parentId: string
    const timestamp: Option<M.Timestamp>
    const libNum: uint64
    const parentNum: uint64
    var payload: Any

    ghost function Value(): BstreamBlock
      reads this
    {
      BstreamBlock(number, id, parentId, timestamp, libNum, parentNum, payload)
    }

    constructor (b: BstreamBlock)
      ensures Value() == b
    {
      number, id, parentId, timestamp := b.number, b.id, b.parentId, b.timestamp;
      libNum, parentNum, payload := b.libNum, b.parentNum, b.payload;
    }

    /** The block as a value, for maps that hold it. */
    method Read() returns (b: BstreamBlock)
      ensures b == Value()
    {
      b := BstreamBlock(number, id, parentId, timestamp, libNum, parentNum, payload);
    }
  }

  const BLOCK_NAME := "sf.stellar.type.v1.Block"

  /** Payload.UnmarshalTo(&block). */
  function Unpack(a: Any): Option<M.Block> {
    if a.typeName == BLOCK_NAME then M.DecodeBlock(a.value) else None
  }

  /** anypb.New(&block); a message too large for a buffer is an error. */
  function Pack(b: M.Block): Option<Any> {
    if |M.EncodeBlock(b)| < TWO_63 then Some(Any(BLOCK_NAME, M.EncodeBlock(b))) else None
  }

  /** A payload that was unpacked, then packed again after its hashes changed, reads back. */
  lemma PackRoundTrip(b: M.Block)
    requires RT.BlockOk(b) && Pack(b).Some?
    ensures Unpack(Pack(b).value) == Some(b)
  {
    RT.BlockRoundTrip(b);
  }

  lemma UnpackedIsOk(a: Any)
    requires Unpack(a).Some?
    ensures RT.BlockOk(Unpack(a).value)
  {
    RT.DecodedBlockIsOk(M.NO_BLOCK, a.value);
  }

  /** The ledger hash and the previous ledger hash a block's payload carries. */
  function PayloadHash(b: BstreamBlock): Option<bytes> {
    match Unpack(b.payload) case None => None case Some(m) => Some(m.hash)
  }

  function PayloadPreviousHash(b: BstreamBlock): Option<bytes> {
    match Unpack(b.payload)
    case None => None
    case Some(m) => if m.header.None? then None else Some(m.header.value.previousLedgerHash)
  }

  // ---- stores ----

  datatype File = File(name: string, blocks: seq<BstreamBlock>)

  const BUNDLE_SIZE := 100

  /** Files whose name is not a number are no bundles. */
  function BundleStart(f: File): Option<uint64> { ParseUint64(f.name) }

  predicate InBundle(f: File) {
    BundleStart(f).Some? ==>
      && |f.name| == 10
      && BundleStart(f).value % BUNDLE_SIZE == 0
      && BundleStart(f).value + BUNDLE_SIZE < TWO_64
      && forall b :: b in f.blocks ==>
           BundleStart(f).value <= b.number < BundleStart(f).value + BUNDLE_SIZE
  }

  /** Bundles named by ten digits, in ascending order, each holding blocks of its own hundred. */
  predicate WellFormed(files: seq<File>) {
    && (forall f :: f in files ==> InBundle(f))
    && forall i, j :: 0 <= i < j < |files| && BundleStart(files[i]).Some? && BundleStart(files[j]).Some?
         ==> BundleStart(files[i]).value < BundleStart(files[j]).value
  }
}
