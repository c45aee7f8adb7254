/**
 The five messages of sf.stellar.type.v1 and google.protobuf.Timestamp as values: what
 each known field does on decode, and the forward tag/length/value encoding.

 A sub-message that may be absent is an Option. The elements of a repeated field are never
 absent: the Go code writes, sizes and compares a nil element as an empty message.
 */
module Messages {
  import opened Base
  import opened Wire

  datatype Timestamp = Timestamp(seconds: int64, nanos: int32, unknown: bytes)

  datatype Header = Header(
    ledgerVersion: uint32, previousLedgerHash: bytes, totalCoins: int64,
    baseFee: uint32, baseReserve: uint32, unknown: bytes)

  datatype ContractEvent = ContractEvent(events: seq<bytes>, unknown: bytes)

  datatype Events = Events(
    diagnostic: seq<bytes>, transaction: seq<bytes>, contract: seq<ContractEvent>, unknown: bytes)

  datatype Transaction = Transaction(
    hash: bytes, status: int32, createdAt: Option<Timestamp>, applicationOrder: uint64,
    envelopeXdr: bytes, resultXdr: bytes, events: Option<Events>, unknown: bytes)

  datatype Block = Block(
    number: uint64, hash: bytes, header: Option<Header>, version: int64,
    transactions: seq<Transaction>, createdAt: Option<Timestamp>, unknown: bytes)

  const NO_TIMESTAMP := Timestamp(0, 0, [])
  const NO_HEADER := Header(0, [], 0, 0, 0, [])
  const NO_CONTRACT_EVENT := ContractEvent([], [])
  const NO_EVENTS := Events([], [], [], [])
  const NO_TRANSACTION := Transaction([], 0, None, 0, [], [], None, [])
  const NO_BLOCK := Block(0, [], None, 0, [], None, [])

  function OrElse<T>(o: Option<T>, default: T): T {
    match o case Some(v) => v case None => default
  }

  // ---- decoding: what each field number means ----

  function TimestampKind(num: int): Kind {
    if num == 1 || num == 2 then VarintKind else UnknownKind
  }

  function MergeTimestamp(m: Timestamp, f: Field): Option<Timestamp> {
    match f
    case VarintField(1, v) => Some(m.(seconds := ToInt64(v)))
    case VarintField(2, v) => Some(m.(nanos := ToInt32(v)))
    case _ => None
  }

  function KeepTimestamp(m: Timestamp, raw: bytes): Timestamp { m.(unknown := m.unknown + raw) }

  function HeaderKind(num: int): Kind {
    if num == 2 then BytesKind else if 1 <= num <= 5 then VarintKind else UnknownKind
  }

  function MergeHeader(m: Header, f: Field): Option<Header> {
    match f
    case VarintField(1, v) => Some(m.(ledgerVersion := ToUint32(v)))
    case BytesField(2, p) => Some(m.(previousLedgerHash := p))
    case VarintField(3, v) => Some(m.(totalCoins := ToInt64(v)))
    case VarintField(4, v) => Some(m.(baseFee := ToUint32(v)))
    case VarintField(5, v) => Some(m.(baseReserve := ToUint32(v)))
    case _ => None
  }

  function KeepHeader(m: Header, raw: bytes): Header { m.(unknown := m.unknown + raw) }

  function ContractEventKind(num: int): Kind {
    if num == 1 then BytesKind else UnknownKind
  }

  function MergeContractEvent(m: ContractEvent, f: Field): Option<ContractEvent> {
    match f
    case BytesField(1, p) => Some(m.(events := m.events + [p]))
    case _ => None
  }

  function KeepContractEvent(m: ContractEvent, raw: bytes): ContractEvent { m.(unknown := m.unknown + raw) }

  function EventsKind(num: int): Kind {
    if 1 <= num <= 3 then BytesKind else UnknownKind
  }

  function MergeEvents(m: Events, f: Field): Option<Events> {
    match f
    case BytesField(1, p) => Some(m.(diagnostic := m.diagnostic + [p]))
    case BytesField(2, p) => Some(m.(transaction := m.transaction + [p]))
    case BytesField(3, p) =>
      (match Decode(ContractEventSchema, NO_CONTRACT_EVENT, p)
       case None => None
       case Some(c) => Some(m.(contract := m.contract + [c])))
    case _ => None
  }

  function KeepEvents(m: Events, raw: bytes): Events { m.(unknown := m.unknown + raw) }

  function TransactionKind(num: int): Kind {
    if num == 2 || num == 5 then VarintKind
    else if num == 1 || num == 3 || num == 6 || num == 8 || num == 9 then BytesKind
    else UnknownKind
  }

  function MergeTransaction(m: Transaction, f: Field): Option<Transaction> {
    match f
    case BytesField(1, p) => Some(m.(hash := p))
    case VarintField(2, v) => Some(m.(status := ToInt32(v)))
    case BytesField(3, p) =>
      (match Decode(TimestampSchema, OrElse(m.createdAt, NO_TIMESTAMP), p)
       case None => None
       case Some(t) => Some(m.(createdAt := Some(t))))
    case VarintField(5, v) => Some(m.(applicationOrder := v))
    case BytesField(6, p) => Some(m.(envelopeXdr := p))
    case BytesField(8, p) => Some(m.(resultXdr := p))
    case BytesField(9, p) =>
      (match Decode(EventsSchema, OrElse(m.events, NO_EVENTS), p)
       case None => None
       case Some(e) => Some(m.(events := Some(e))))
    case _ => None
  }

  function KeepTransaction(m: Transaction, raw: bytes): Transaction { m.(unknown := m.unknown + raw) }

  function BlockKind(num: int): Kind {
    if num == 1 || num == 4 then VarintKind
    else if num == 2 || num == 3 || num == 6 || num == 9 then BytesKind
    else UnknownKind
  }

  function MergeBlock(m: Block, f: Field): Option<Block> {
    match f
    case VarintField(1, v) => Some(m.(number := v))
    case BytesField(2, p) => Some(m.(hash := p))
    case BytesField(3, p) =>
      (match Decode(HeaderSchema, OrElse(m.header, NO_HEADER), p)
       case None => None
       case Some(h) => Some(m.(header := Some(h))))
    case VarintField(4, v) => Some(m.(version := ToInt64(v)))
    case BytesField(6, p) =>
      (match Decode(TransactionSchema, NO_TRANSACTION, p)
       case None => None
       case Some(t) => Some(m.(transactions := m.transactions + [t])))
    case BytesField(9, p) =>
      (match Decode(TimestampSchema, OrElse(m.createdAt, NO_TIMESTAMP), p)
       case None => None
       case Some(t) => Some(m.(createdAt := Some(t))))
    case _ => None
  }

  function KeepBlock(m: Block, raw: bytes): Block { m.(unknown := m.unknown + raw) }

  const TimestampSchema: Schema<Timestamp> :=
    Schema(TimestampKind, MergeTimestamp, KeepTimestamp)
  const HeaderSchema: Schema<Header> :=
    Schema(HeaderKind, MergeHeader, KeepHeader)
  const ContractEventSchema: Schema<ContractEvent> :=
    Schema(ContractEventKind, MergeContractEvent, KeepContractEvent)
  const EventsSchema: Schema<Events> :=
    Schema(EventsKind, MergeEvents, KeepEvents)
  const TransactionSchema: Schema<Transaction> :=
    Schema(TransactionKind, MergeTransaction, KeepTransaction)
  const BlockSchema: Schema<Block> :=
    Schema(BlockKind, MergeBlock, KeepBlock)

  // ---- encoding ----

  function EncodeTimestamp(m: Timestamp): bytes {
    OptVarint(0x08, ToUint64(m.seconds)) + (OptVarint(0x10, ToUint64(m.nanos)) + m.unknown)
  }

  function EncodeHeader(m: Header): bytes {
    OptVarint(0x08, m.ledgerVersion) + (
    OptBytes(0x12, m.previousLedgerHash) + (
    OptVarint(0x18, ToUint64(m.totalCoins)) + (
    OptVarint(0x20, m.baseFee) + (
    OptVarint(0x28, m.baseReserve) + m.unknown))))
  }

  function EncodeContractEvent(m: ContractEvent): bytes {
    RepeatedBytes(0x0a, m.events) + m.unknown
  }

  function RepeatedContractEvents(cs: seq<ContractEvent>): bytes {
    if cs == [] then [] else BytesRecord(0x1a, EncodeContractEvent(cs[0])) + RepeatedContractEvents(cs[1..])
  }

  function EncodeEvents(m: Events): bytes {
    RepeatedBytes(0x0a, m.diagnostic) + (
    RepeatedBytes(0x12, m.transaction) + (
    RepeatedContractEvents(m.contract) + m.unknown))
  }

  function EncodeOptTimestamp(tag: byte, o: Option<Timestamp>): bytes {
    OptMessage(tag, match o case None => None case Some(t) => Some(EncodeTimestamp(t)))
  }

  function EncodeOptEvents(o: Option<Events>): bytes {
    OptMessage(0x4a, match o case None => None case Some(e) => Some(EncodeEvents(e)))
  }

  function EncodeOptHeader(o: Option<Header>): bytes {
    OptMessage(0x1a, match o case None => None case Some(h) => Some(EncodeHeader(h)))
  }

  function EncodeTransaction(m: Transaction): bytes {
    OptBytes(0x0a, m.hash) + (
    OptVarint(0x10, ToUint64(m.status)) + (
    EncodeOptTimestamp(0x1a, m.createdAt) + (
    OptVarint(0x28, m.applicationOrder) + (
    OptBytes(0x32, m.envelopeXdr) + (
    OptBytes(0x42, m.resultXdr) + (
    EncodeOptEvents(m.events) + m.unknown))))))
  }

  function RepeatedTransactions(ts: seq<Transaction>): bytes {
    if ts == [] then [] else BytesRecord(0x32, EncodeTransaction(ts[0])) + RepeatedTransactions(ts[1..])
  }

  function EncodeBlock(m: Block): bytes {
    OptVarint(0x08, m.number) + (
    OptBytes(0x12, m.hash) + (
    EncodeOptHeader(m.header) + (
    OptVarint(0x20, ToUint64(m.version)) + (
    RepeatedTransactions(m.transactions) + (
    EncodeOptTimestamp(0x4a, m.createdAt) + m.unknown)))))
  }

  /** UnmarshalVT into a fresh message. */
  function DecodeBlock(bs: bytes): Option<Block> { Decode(BlockSchema, NO_BLOCK, bs) }
}
