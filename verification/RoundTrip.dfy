/**
 Round trips of the message codec: a message is restored by its encoding exactly when its
 unknown bytes, at every nesting level, are whole fields the message does not know, and
 those are exactly the messages the decoder produces.
 */
module RoundTrip {
  import opened Base
  import opened Wire
  import opened Messages

  // ---- unknown bytes at every level ----

  predicate TimestampOk(m: Timestamp) { OnlyUnknown(TimestampKind, m.unknown) }

  predicate HeaderOk(m: Header) { OnlyUnknown(HeaderKind, m.unknown) }

  predicate ContractEventOk(m: ContractEvent) { OnlyUnknown(ContractEventKind, m.unknown) }

  predicate EventsOk(m: Events) {
    OnlyUnknown(EventsKind, m.unknown) && forall c :: c in m.contract ==> ContractEventOk(c)
  }

  predicate TransactionOk(m: Transaction) {
    && OnlyUnknown(TransactionKind, m.unknown)
    && (m.createdAt.Some? ==> TimestampOk(m.createdAt.value))
    && (m.events.Some? ==> EventsOk(m.events.value))
  }

  predicate BlockOk(m: Block) {
    && OnlyUnknown(BlockKind, m.unknown)
    && (m.header.Some? ==> HeaderOk(m.header.value))
    && (forall t :: t in m.transactions ==> TransactionOk(t))
    && (m.createdAt.Some? ==> TimestampOk(m.createdAt.value))
  }

  // ---- decoding what was encoded, piece by piece ----

  lemma DecodeOptVarint<M>(s: Schema<M>, m: M, tag: byte, v: uint64, rest: bytes, m': M)
    requires 8 <= tag < 128 && tag % 8 == 0 && s.kind(tag / 8) == VarintKind
    requires if v == 0 then m' == m else s.merge(m, VarintField(tag / 8, v)) == Some(m')
    ensures Decode(s, m, OptVarint(tag, v) + rest) == Decode(s, m', rest)
  {
    hide ReadField;
    if v == 0 {
      assert [] + rest == rest;
    } else {
      DecodeVarintRecord(s, m, tag, v, rest);
    }
  }

  lemma DecodeOptBytes<M>(s: Schema<M>, m: M, tag: byte, p: bytes, rest: bytes, m': M)
    requires 8 <= tag < 128 && tag % 8 == 2 && s.kind(tag / 8) == BytesKind
    requires |OptBytes(tag, p)| < TWO_63
    requires if p == [] then m' == m else s.merge(m, BytesField(tag / 8, p)) == Some(m')
    ensures Decode(s, m, OptBytes(tag, p) + rest) == Decode(s, m', rest)
  {
    hide ReadField;
    if p == [] {
      assert [] + rest == rest;
    } else {
      DecodeBytesRecord(s, m, tag, p, rest);
    }
  }

  lemma DecodeOptMessage<M>(s: Schema<M>, m: M, tag: byte, o: Option<bytes>, rest: bytes, m': M)
    requires 8 <= tag < 128 && tag % 8 == 2 && s.kind(tag / 8) == BytesKind
    requires |OptMessage(tag, o)| < TWO_63
    requires match o case None => m' == m case Some(p) => s.merge(m, BytesField(tag / 8, p)) == Some(m')
    ensures Decode(s, m, OptMessage(tag, o) + rest) == Decode(s, m', rest)
  {
    hide ReadField;
    match o
    case None => assert [] + rest == rest;
    case Some(p) => DecodeBytesRecord(s, m, tag, p, rest);
  }

  // ---- the kept bytes close every message ----

  lemma TimestampTail(m: Timestamp, u: bytes)
    requires m.unknown == [] && OnlyUnknown(TimestampKind, u)
    ensures Decode(TimestampSchema, m, u) == Some(m.(unknown := u))
  {
    hide ReadField, Decode, OnlyUnknown;
    forall m: Timestamp ensures KeepTimestamp(m, []) == m {
      assert m.unknown + [] == m.unknown;
    }
    forall m: Timestamp, a: bytes, b: bytes ensures KeepTimestamp(KeepTimestamp(m, a), b) == KeepTimestamp(m, a + b) {
      assert m.unknown + a + b == m.unknown + (a + b);
    }
    DecodeOnlyUnknown(TimestampSchema, m, u);
    assert m.unknown + u == u;
  }

  lemma HeaderTail(m: Header, u: bytes)
    requires m.unknown == [] && OnlyUnknown(HeaderKind, u)
    ensures Decode(HeaderSchema, m, u) == Some(m.(unknown := u))
  {
    hide ReadField, Decode, OnlyUnknown;
    forall m: Header ensures KeepHeader(m, []) == m {
      assert m.unknown + [] == m.unknown;
    }
    forall m: Header, a: bytes, b: bytes ensures KeepHeader(KeepHeader(m, a), b) == KeepHeader(m, a + b) {
      assert m.unknown + a + b == m.unknown + (a + b);
    }
    DecodeOnlyUnknown(HeaderSchema, m, u);
    assert m.unknown + u == u;
  }

  lemma ContractEventTail(m: ContractEvent, u: bytes)
    requires m.unknown == [] && OnlyUnknown(ContractEventKind, u)
    ensures Decode(ContractEventSchema, m, u) == Some(m.(unknown := u))
  {
    hide ReadField, Decode, OnlyUnknown;
    forall m: ContractEvent ensures KeepContractEvent(m, []) == m {
      assert m.unknown + [] == m.unknown;
    }
    forall m: ContractEvent, a: bytes, b: bytes
      ensures KeepContractEvent(KeepContractEvent(m, a), b) == KeepContractEvent(m, a + b)
    {
      assert m.unknown + a + b == m.unknown + (a + b);
    }
    DecodeOnlyUnknown(ContractEventSchema, m, u);
    assert m.unknown + u == u;
  }

  lemma EventsTail(m: Events, u: bytes)
    requires m.unknown == [] && OnlyUnknown(EventsKind, u)
    ensures Decode(EventsSchema, m, u) == Some(m.(unknown := u))
  {
    hide ReadField, Decode, OnlyUnknown;
    forall m: Events ensures KeepEvents(m, []) == m {
      assert m.unknown + [] == m.unknown;
    }
    forall m: Events, a: bytes, b: bytes ensures KeepEvents(KeepEvents(m, a), b) == KeepEvents(m, a + b) {
      assert m.unknown + a + b == m.unknown + (a + b);
    }
    DecodeOnlyUnknown(EventsSchema, m, u);
    assert m.unknown + u == u;
  }

  lemma TransactionTail(m: Transaction, u: bytes)
    requires m.unknown == [] && OnlyUnknown(TransactionKind, u)
    ensures Decode(TransactionSchema, m, u) == Some(m.(unknown := u))
  {
    hide ReadField, Decode, OnlyUnknown;
    forall m: Transaction ensures KeepTransaction(m, []) == m {
      assert m.unknown + [] == m.unknown;
    }
    forall m: Transaction, a: bytes, b: bytes
      ensures KeepTransaction(KeepTransaction(m, a), b) == KeepTransaction(m, a + b)
    {
      assert m.unknown + a + b == m.unknown + (a + b);
    }
    DecodeOnlyUnknown(TransactionSchema, m, u);
    assert m.unknown + u == u;
  }

  lemma BlockTail(m: Block, u: bytes)
    requires m.unknown == [] && OnlyUnknown(BlockKind, u)
    ensures Decode(BlockSchema, m, u) == Some(m.(unknown := u))
  {
    hide ReadField, Decode, OnlyUnknown;
    forall m: Block ensures KeepBlock(m, []) == m {
      assert m.unknown + [] == m.unknown;
    }
    forall m: Block, a: bytes, b: bytes ensures KeepBlock(KeepBlock(m, a), b) == KeepBlock(m, a + b) {
      assert m.unknown + a + b == m.unknown + (a + b);
    }
    DecodeOnlyUnknown(BlockSchema, m, u);
    assert m.unknown + u == u;
  }

  lemma TimestampRoundTrip(m: Timestamp)
    requires TimestampOk(m)
    ensures Decode(TimestampSchema, NO_TIMESTAMP, EncodeTimestamp(m)) == Some(m)
  {
    hide Decode, ReadField, OnlyUnknown, OptVarint, OptBytes, OptMessage;
    var m1 := NO_TIMESTAMP.(seconds := m.seconds);
    var m2 := m1.(nanos := m.nanos);
    var r1 := OptVarint(0x10, ToUint64(m.nanos)) + m.unknown;
    DecodeOptVarint(TimestampSchema, NO_TIMESTAMP, 0x08, ToUint64(m.seconds), r1, m1);
    DecodeOptVarint(TimestampSchema, m1, 0x10, ToUint64(m.nanos), m.unknown, m2);
    TimestampTail(m2, m.unknown);
  }

  lemma HeaderRoundTrip(m: Header)
    requires HeaderOk(m) && |EncodeHeader(m)| < TWO_63
    ensures Decode(HeaderSchema, NO_HEADER, EncodeHeader(m)) == Some(m)
  {
    hide Decode, ReadField, OnlyUnknown, OptVarint, OptBytes, OptMessage;
    var s := HeaderSchema;
    var m1 := NO_HEADER.(ledgerVersion := m.ledgerVersion);
    var m2 := m1.(previousLedgerHash := m.previousLedgerHash);
    var m3 := m2.(totalCoins := m.totalCoins);
    var m4 := m3.(baseFee := m.baseFee);
    var m5 := m4.(baseReserve := m.baseReserve);
    var r4 := OptVarint(0x28, m.baseReserve) + m.unknown;
    var r3 := OptVarint(0x20, m.baseFee) + r4;
    var r2 := OptVarint(0x18, ToUint64(m.totalCoins)) + r3;
    var r1 := OptBytes(0x12, m.previousLedgerHash) + r2;
    DecodeOptVarint(s, NO_HEADER, 0x08, m.ledgerVersion, r1, m1);
    DecodeOptBytes(s, m1, 0x12, m.previousLedgerHash, r2, m2);
    DecodeOptVarint(s, m2, 0x18, ToUint64(m.totalCoins), r3, m3);
    DecodeOptVarint(s, m3, 0x20, m.baseFee, r4, m4);
    DecodeOptVarint(s, m4, 0x28, m.baseReserve, m.unknown, m5);
    HeaderTail(m5, m.unknown);
  }

  lemma {:induction false} DecodeRepeatedEvents(m: ContractEvent, ps: seq<bytes>, rest: bytes)
    requires |RepeatedBytes(0x0a, ps)| < TWO_63
    ensures Decode(ContractEventSchema, m, RepeatedBytes(0x0a, ps) + rest)
         == Decode(ContractEventSchema, m.(events := m.events + ps), rest)
    decreases |ps|
  {
    hide ReadField, Decode;
    if ps == [] {
      assert [] + rest == rest && m.events + ps == m.events;
    } else {
      var tail := RepeatedBytes(0x0a, ps[1..]) + rest;
      assert RepeatedBytes(0x0a, ps) + rest == BytesRecord(0x0a, ps[0]) + tail;
      DecodeBytesRecord(ContractEventSchema, m, 0x0a, ps[0], tail);
      DecodeRepeatedEvents(m.(events := m.events + [ps[0]]), ps[1..], rest);
      assert m.events + [ps[0]] + ps[1..] == m.events + ps;
    }
  }

  lemma ContractEventRoundTrip(m: ContractEvent)
    requires ContractEventOk(m) && |EncodeContractEvent(m)| < TWO_63
    ensures Decode(ContractEventSchema, NO_CONTRACT_EVENT, EncodeContractEvent(m)) == Some(m)
  {
    hide Decode, ReadField, OnlyUnknown, OptVarint, OptBytes, OptMessage, RepeatedBytes;
    DecodeRepeatedEvents(NO_CONTRACT_EVENT, m.events, m.unknown);
    assert [] + m.events == m.events;
    ContractEventTail(NO_CONTRACT_EVENT.(events := m.events), m.unknown);
  }

  lemma {:induction false} DecodeRepeatedDiagnostic(m: Events, ps: seq<bytes>, rest: bytes)
    requires |RepeatedBytes(0x0a, ps)| < TWO_63
    ensures Decode(EventsSchema, m, RepeatedBytes(0x0a, ps) + rest)
         == Decode(EventsSchema, m.(diagnostic := m.diagnostic + ps), rest)
    decreases |ps|
  {
    hide ReadField, Decode;
    if ps == [] {
      assert [] + rest == rest && m.diagnostic + ps == m.diagnostic;
    } else {
      var tail := RepeatedBytes(0x0a, ps[1..]) + rest;
      assert RepeatedBytes(0x0a, ps) + rest == BytesRecord(0x0a, ps[0]) + tail;
      DecodeBytesRecord(EventsSchema, m, 0x0a, ps[0], tail);
      DecodeRepeatedDiagnostic(m.(diagnostic := m.diagnostic + [ps[0]]), ps[1..], rest);
      assert m.diagnostic + [ps[0]] + ps[1..] == m.diagnostic + ps;
    }
  }

  lemma {:induction false} DecodeRepeatedTransactionEvents(m: Events, ps: seq<bytes>, rest: bytes)
    requires |RepeatedBytes(0x12, ps)| < TWO_63
    ensures Decode(EventsSchema, m, RepeatedBytes(0x12, ps) + rest)
         == Decode(EventsSchema, m.(transaction := m.transaction + ps), rest)
    decreases |ps|
  {
    hide ReadField, Decode;
    if ps == [] {
      assert [] + rest == rest && m.transaction + ps == m.transaction;
    } else {
      var tail := RepeatedBytes(0x12, ps[1..]) + rest;
      assert RepeatedBytes(0x12, ps) + rest == BytesRecord(0x12, ps[0]) + tail;
      DecodeBytesRecord(EventsSchema, m, 0x12, ps[0], tail);
      DecodeRepeatedTransactionEvents(m.(transaction := m.transaction + [ps[0]]), ps[1..], rest);
      assert m.transaction + [ps[0]] + ps[1..] == m.transaction + ps;
    }
  }

  lemma {:induction false} DecodeRepeatedContract(m: Events, cs: seq<ContractEvent>, rest: bytes)
    requires (forall c :: c in cs ==> ContractEventOk(c)) && |RepeatedContractEvents(cs)| < TWO_63
    ensures Decode(EventsSchema, m, RepeatedContractEvents(cs) + rest)
         == Decode(EventsSchema, m.(contract := m.contract + cs), rest)
    decreases |cs|
  {
    hide ReadField, Decode, BytesRecord, EncodeContractEvent, ContractEventOk;
    if cs == [] {
      assert [] + rest == rest && m.contract + cs == m.contract;
    } else {
      var tail := RepeatedContractEvents(cs[1..]) + rest;
      var p := EncodeContractEvent(cs[0]);
      assert RepeatedContractEvents(cs) + rest == BytesRecord(0x1a, p) + tail;
      ContractEventRoundTrip(cs[0]);
      DecodeBytesRecord(EventsSchema, m, 0x1a, p, tail);
      DecodeRepeatedContract(m.(contract := m.contract + [cs[0]]), cs[1..], rest);
      assert m.contract + [cs[0]] + cs[1..] == m.contract + cs;
    }
  }

  lemma EventsRoundTrip(m: Events)
    requires EventsOk(m) && |EncodeEvents(m)| < TWO_63
    ensures Decode(EventsSchema, NO_EVENTS, EncodeEvents(m)) == Some(m)
  {
    hide Decode, ReadField, OnlyUnknown, OptVarint, OptBytes, OptMessage, RepeatedBytes, RepeatedContractEvents;
    var m1 := NO_EVENTS.(diagnostic := m.diagnostic);
    var m2 := m1.(transaction := m.transaction);
    var m3 := m2.(contract := m.contract);
    var r2 := RepeatedContractEvents(m.contract) + m.unknown;
    var r1 := RepeatedBytes(0x12, m.transaction) + r2;
    assert [] + m.diagnostic == m.diagnostic && [] + m.transaction == m.transaction && [] + m.contract == m.contract;
    DecodeRepeatedDiagnostic(NO_EVENTS, m.diagnostic, r1);
    DecodeRepeatedTransactionEvents(m1, m.transaction, r2);
    DecodeRepeatedContract(m2, m.contract, m.unknown);
    EventsTail(m3, m.unknown);
  }

  lemma TransactionRoundTrip(m: Transaction)
    requires TransactionOk(m) && |EncodeTransaction(m)| < TWO_63
    ensures Decode(TransactionSchema, NO_TRANSACTION, EncodeTransaction(m)) == Some(m)
  {
    hide Decode, ReadField, OnlyUnknown, OptVarint, OptBytes, OptMessage;
    hide EncodeTimestamp, EncodeEvents, EventsOk;
    var s := TransactionSchema;
    var m1 := NO_TRANSACTION.(hash := m.hash);
    var m2 := m1.(status := m.status);
    var m3 := m2.(createdAt := m.createdAt);
    var m4 := m3.(applicationOrder := m.applicationOrder);
    var m5 := m4.(envelopeXdr := m.envelopeXdr);
    var m6 := m5.(resultXdr := m.resultXdr);
    var m7 := m6.(events := m.events);
    var r6 := EncodeOptEvents(m.events) + m.unknown;
    var r5 := OptBytes(0x42, m.resultXdr) + r6;
    var r4 := OptBytes(0x32, m.envelopeXdr) + r5;
    var r3 := OptVarint(0x28, m.applicationOrder) + r4;
    var r2 := EncodeOptTimestamp(0x1a, m.createdAt) + r3;
    var r1 := OptVarint(0x10, ToUint64(m.status)) + r2;
    DecodeOptBytes(s, NO_TRANSACTION, 0x0a, m.hash, r1, m1);
    DecodeOptVarint(s, m1, 0x10, ToUint64(m.status), r2, m2);
    if m.createdAt.Some? { TimestampRoundTrip(m.createdAt.value); }
    DecodeOptMessage(s, m2, 0x1a, match m.createdAt case None => None case Some(t) => Some(EncodeTimestamp(t)), r3, m3);
    DecodeOptVarint(s, m3, 0x28, m.applicationOrder, r4, m4);
    DecodeOptBytes(s, m4, 0x32, m.envelopeXdr, r5, m5);
    DecodeOptBytes(s, m5, 0x42, m.resultXdr, r6, m6);
    if m.events.Some? { EventsRoundTrip(m.events.value); }
    var events := match m.events case None => None case Some(e) => Some(EncodeEvents(e));
    DecodeOptMessage(s, m6, 0x4a, events, m.unknown, m7);
    TransactionTail(m7, m.unknown);
  }

  lemma {:induction false} DecodeRepeatedTransactions(m: Block, ts: seq<Transaction>, rest: bytes)
    requires (forall t :: t in ts ==> TransactionOk(t)) && |RepeatedTransactions(ts)| < TWO_63
    ensures Decode(BlockSchema, m, RepeatedTransactions(ts) + rest)
         == Decode(BlockSchema, m.(transactions := m.transactions + ts), rest)
    decreases |ts|
  {
    hide ReadField, Decode, BytesRecord, EncodeTransaction, TransactionOk;
    if ts == [] {
      assert [] + rest == rest && m.transactions + ts == m.transactions;
    } else {
      var tail := RepeatedTransactions(ts[1..]) + rest;
      var p := EncodeTransaction(ts[0]);
      assert RepeatedTransactions(ts) + rest == BytesRecord(0x32, p) + tail;
      TransactionRoundTrip(ts[0]);
      DecodeBytesRecord(BlockSchema, m, 0x32, p, tail);
      DecodeRepeatedTransactions(m.(transactions := m.transactions + [ts[0]]), ts[1..], rest);
      assert m.transactions + [ts[0]] + ts[1..] == m.transactions + ts;
    }
  }

  /** Marshal then unmarshal restores every block whose unknown bytes are whole unknown fields. */
  lemma BlockRoundTrip(m: Block)
    requires BlockOk(m) && |EncodeBlock(m)| < TWO_63
    ensures DecodeBlock(EncodeBlock(m)) == Some(m)
  {
    hide Decode, ReadField, OnlyUnknown, OptVarint, OptBytes, OptMessage;
    hide EncodeTimestamp, EncodeHeader, RepeatedTransactions, TransactionOk;
    var s := BlockSchema;
    var m1 := NO_BLOCK.(number := m.number);
    var m2 := m1.(hash := m.hash);
    var m3 := m2.(header := m.header);
    var m4 := m3.(version := m.version);
    var m5 := m4.(transactions := m.transactions);
    var m6 := m5.(createdAt := m.createdAt);
    var r5 := EncodeOptTimestamp(0x4a, m.createdAt) + m.unknown;
    var r4 := RepeatedTransactions(m.transactions) + r5;
    var r3 := OptVarint(0x20, ToUint64(m.version)) + r4;
    var r2 := EncodeOptHeader(m.header) + r3;
    var r1 := OptBytes(0x12, m.hash) + r2;
    DecodeOptVarint(s, NO_BLOCK, 0x08, m.number, r1, m1);
    DecodeOptBytes(s, m1, 0x12, m.hash, r2, m2);
    if m.header.Some? { HeaderRoundTrip(m.header.value); }
    DecodeOptMessage(s, m2, 0x1a, match m.header case None => None case Some(h) => Some(EncodeHeader(h)), r3, m3);
    DecodeOptVarint(s, m3, 0x20, ToUint64(m.version), r4, m4);
    DecodeRepeatedTransactions(m4, m.transactions, r5);
    assert [] + m.transactions == m.transactions;
    if m.createdAt.Some? { TimestampRoundTrip(m.createdAt.value); }
    var stamp := match m.createdAt case None => None case Some(t) => Some(EncodeTimestamp(t));
    DecodeOptMessage(s, m5, 0x4a, stamp, m.unknown, m6);
    BlockTail(m6, m.unknown);
  }

  // ---- decoded messages keep their unknown bytes whole ----

  lemma DecodedTimestampIsOk(m: Timestamp, bs: bytes)
    requires TimestampOk(m) && Decode(TimestampSchema, m, bs).Some?
    ensures TimestampOk(Decode(TimestampSchema, m, bs).value)
  {
    hide ReadField, Decode, OnlyUnknown;
    forall m: Timestamp, f: Field | TimestampOk(m) && WellRead(TimestampKind, f) && Absorb(TimestampSchema, m, f).Some?
      ensures TimestampOk(Absorb(TimestampSchema, m, f).value)
    {
      if f.UnknownField? { OnlyUnknownConcat(TimestampKind, m.unknown, f.raw); }
    }
    DecodePreserves(TimestampSchema, TimestampOk, m, bs);
  }

  lemma DecodedHeaderIsOk(m: Header, bs: bytes)
    requires HeaderOk(m) && Decode(HeaderSchema, m, bs).Some?
    ensures HeaderOk(Decode(HeaderSchema, m, bs).value)
  {
    hide ReadField, Decode, OnlyUnknown;
    forall m: Header, f: Field | HeaderOk(m) && WellRead(HeaderKind, f) && Absorb(HeaderSchema, m, f).Some?
      ensures HeaderOk(Absorb(HeaderSchema, m, f).value)
    {
      if f.UnknownField? { OnlyUnknownConcat(HeaderKind, m.unknown, f.raw); }
    }
    DecodePreserves(HeaderSchema, HeaderOk, m, bs);
  }

  lemma DecodedContractEventIsOk(m: ContractEvent, bs: bytes)
    requires ContractEventOk(m) && Decode(ContractEventSchema, m, bs).Some?
    ensures ContractEventOk(Decode(ContractEventSchema, m, bs).value)
  {
    hide ReadField, Decode, OnlyUnknown;
    forall m: ContractEvent, f: Field
      | ContractEventOk(m) && WellRead(ContractEventKind, f) && Absorb(ContractEventSchema, m, f).Some?
      ensures ContractEventOk(Absorb(ContractEventSchema, m, f).value)
    {
      if f.UnknownField? { OnlyUnknownConcat(ContractEventKind, m.unknown, f.raw); }
    }
    DecodePreserves(ContractEventSchema, ContractEventOk, m, bs);
  }

  lemma AbsorbedEventsAreOk(m: Events, f: Field)
    requires EventsOk(m) && WellRead(EventsKind, f) && Absorb(EventsSchema, m, f).Some?
    ensures EventsOk(Absorb(EventsSchema, m, f).value)
  {
    hide ReadField, Decode;
    match f
    case UnknownField(raw) => OnlyUnknownConcat(EventsKind, m.unknown, raw);
    case BytesField(3, p) => DecodedContractEventIsOk(NO_CONTRACT_EVENT, p);
    case _ =>
  }

  lemma DecodedEventsAreOk(m: Events, bs: bytes)
    requires EventsOk(m) && Decode(EventsSchema, m, bs).Some?
    ensures EventsOk(Decode(EventsSchema, m, bs).value)
  {
    forall m: Events, f: Field | EventsOk(m) && WellRead(EventsKind, f) && Absorb(EventsSchema, m, f).Some?
      ensures EventsOk(Absorb(EventsSchema, m, f).value)
    {
      AbsorbedEventsAreOk(m, f);
    }
    DecodePreserves(EventsSchema, EventsOk, m, bs);
  }

  lemma AbsorbedTransactionIsOk(m: Transaction, f: Field)
    requires TransactionOk(m) && WellRead(TransactionKind, f) && Absorb(TransactionSchema, m, f).Some?
    ensures TransactionOk(Absorb(TransactionSchema, m, f).value)
  {
    hide ReadField, Decode;
    match f
    case UnknownField(raw) => OnlyUnknownConcat(TransactionKind, m.unknown, raw);
    case BytesField(3, p) => DecodedTimestampIsOk(OrElse(m.createdAt, NO_TIMESTAMP), p);
    case BytesField(9, p) => DecodedEventsAreOk(OrElse(m.events, NO_EVENTS), p);
    case _ =>
  }

  lemma DecodedTransactionIsOk(m: Transaction, bs: bytes)
    requires TransactionOk(m) && Decode(TransactionSchema, m, bs).Some?
    ensures TransactionOk(Decode(TransactionSchema, m, bs).value)
  {
    forall m: Transaction, f: Field
      | TransactionOk(m) && WellRead(TransactionKind, f) && Absorb(TransactionSchema, m, f).Some?
      ensures TransactionOk(Absorb(TransactionSchema, m, f).value)
    {
      AbsorbedTransactionIsOk(m, f);
    }
    DecodePreserves(TransactionSchema, TransactionOk, m, bs);
  }

  lemma AbsorbedBlockIsOk(m: Block, f: Field)
    requires BlockOk(m) && WellRead(BlockKind, f) && Absorb(BlockSchema, m, f).Some?
    ensures BlockOk(Absorb(BlockSchema, m, f).value)
  {
    hide ReadField, Decode;
    match f
    case UnknownField(raw) => OnlyUnknownConcat(BlockKind, m.unknown, raw);
    case BytesField(3, p) => DecodedHeaderIsOk(OrElse(m.header, NO_HEADER), p);
    case BytesField(6, p) => DecodedTransactionIsOk(NO_TRANSACTION, p);
    case BytesField(9, p) => DecodedTimestampIsOk(OrElse(m.createdAt, NO_TIMESTAMP), p);
    case _ =>
  }

  lemma DecodedBlockIsOk(m: Block, bs: bytes)
    requires BlockOk(m) && Decode(BlockSchema, m, bs).Some?
    ensures BlockOk(Decode(BlockSchema, m, bs).value)
  {
    forall m: Block, f: Field
      | BlockOk(m) && WellRead(BlockKind, f) && Absorb(BlockSchema, m, f).Some?
      ensures BlockOk(Absorb(BlockSchema, m, f).value)
    {
      AbsorbedBlockIsOk(m, f);
    }
    DecodePreserves(BlockSchema, BlockOk, m, bs);
  }

  // ---- main results ----

  /** Whatever bytes decode, the message they decode to survives being encoded and decoded again. */
  lemma DecodeEncodeDecode(bs: bytes)
    requires DecodeBlock(bs).Some? && |EncodeBlock(DecodeBlock(bs).value)| < TWO_63
    ensures DecodeBlock(EncodeBlock(DecodeBlock(bs).value)) == DecodeBlock(bs)
  {
    DecodedBlockIsOk(NO_BLOCK, bs);
    BlockRoundTrip(DecodeBlock(bs).value);
  }

  /** A block round-trips if and only if its unknown bytes are whole unknown fields at every level. */
  lemma RoundTripsExactlyWhenOk(m: Block)
    requires |EncodeBlock(m)| < TWO_63
    ensures DecodeBlock(EncodeBlock(m)) == Some(m) <==> BlockOk(m)
  {
    if BlockOk(m) {
      BlockRoundTrip(m);
    } else if DecodeBlock(EncodeBlock(m)) == Some(m) {
      DecodedBlockIsOk(NO_BLOCK, EncodeBlock(m));
    }
  }

  /** A block can come out of the decoder if and only if its unknown bytes are whole unknown fields. */
  lemma DecodableExactlyWhenOk(m: Block)
    requires |EncodeBlock(m)| < TWO_63
    ensures (exists bs :: DecodeBlock(bs) == Some(m)) <==> BlockOk(m)
  {
    if BlockOk(m) {
      BlockRoundTrip(m);
    } else {
      forall bs | DecodeBlock(bs) == Some(m) ensures false {
        DecodedBlockIsOk(NO_BLOCK, bs);
      }
    }
  }

  /** Arbitrary unknown bytes do not round-trip: here they read back as the block number. */
  lemma UnknownBytesCanBeReadAsFields()
    ensures var m := NO_BLOCK.(unknown := [0x08, 0x01]);
            DecodeBlock(EncodeBlock(m)) == Some(NO_BLOCK.(number := 1)) != Some(m)
  {
    var bs := [0x08, 0x01];
    assert EncodeBlock(NO_BLOCK.(unknown := bs)) == bs;
    assert bs == VarintRecord(0x08, 1) + [];
    DecodeVarintRecord(BlockSchema, NO_BLOCK, 0x08, 1, []);
  }

  predicate NoUnknownBytes(m: Block) {
    && m.unknown == []
    && (m.header.Some? ==> m.header.value.unknown == [])
    && (m.createdAt.Some? ==> m.createdAt.value.unknown == [])
    && (forall t :: t in m.transactions ==>
          && t.unknown == []
          && (t.createdAt.Some? ==> t.createdAt.value.unknown == [])
          && (t.events.Some? ==>
                && t.events.value.unknown == []
                && forall c :: c in t.events.value.contract ==> c.unknown == []))
  }

  /** On blocks that can come out of the decoder the encoding is injective. */
  lemma EncodingIsInjective(a: Block, b: Block)
    requires BlockOk(a) && BlockOk(b) && |EncodeBlock(a)| < TWO_63
    ensures EncodeBlock(a) == EncodeBlock(b) <==> a == b
  {
    hide ReadField, Decode, EncodeBlock;
    if EncodeBlock(a) == EncodeBlock(b) {
      BlockRoundTrip(a);
      BlockRoundTrip(b);
    }
  }

  /** In particular on blocks without unknown bytes. */
  lemma PlainEncodingIsInjective(a: Block, b: Block)
    requires NoUnknownBytes(a) && NoUnknownBytes(b) && |EncodeBlock(a)| < TWO_63
    ensures EncodeBlock(a) == EncodeBlock(b) <==> a == b
  {
    NothingUnknownIsOk(a);
    NothingUnknownIsOk(b);
    hide NoUnknownBytes, BlockOk, EncodeBlock;
    EncodingIsInjective(a, b);
  }

  lemma NothingUnknownIsOk(m: Block)
    requires NoUnknownBytes(m)
    ensures BlockOk(m)
  {
  }

  /** Decoding the concatenation of two encodings merges the second message into the first. */
  lemma ConcatenationMerges(m: Block, a: bytes, b: bytes)
    requires Decode(BlockSchema, m, a).Some?
    ensures Decode(BlockSchema, m, a + b) == Decode(BlockSchema, Decode(BlockSchema, m, a).value, b)
  {
    DecodeConcat(BlockSchema, m, a, b);
  }
}
