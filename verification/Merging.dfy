/**
 What decoding into a message that already holds something does, on the wire: the last
 scalar or byte string wins whatever came before, also when it is zero or empty, repeated
 fields grow at the end, and a sub-message that comes in two records is merged as if it
 had come in one.
 */
module Merging {
  import opened Base
  import opened Wire
  import opened Messages
  import opened RoundTrip

  /** Decoding goes on after `a` with one more scalar. */
  lemma ThenScalar<M>(s: Schema<M>, m: M, a: bytes, tag: byte, v: uint64)
    requires Decode(s, m, a).Some? && 8 <= tag < 128 && tag % 8 == 0 && s.kind(tag / 8) == VarintKind
    requires s.merge(Decode(s, m, a).value, VarintField(tag / 8, v)).Some?
    ensures Decode(s, m, a + VarintRecord(tag, v)) == s.merge(Decode(s, m, a).value, VarintField(tag / 8, v))
  {
    hide ReadField;
    DecodeConcat(s, m, a, VarintRecord(tag, v));
    DecodeVarintRecord(s, Decode(s, m, a).value, tag, v, []);
    assert VarintRecord(tag, v) + [] == VarintRecord(tag, v);
  }

  lemma ThenBytes<M>(s: Schema<M>, m: M, a: bytes, tag: byte, p: bytes)
    requires Decode(s, m, a).Some? && 8 <= tag < 128 && tag % 8 == 2 && s.kind(tag / 8) == BytesKind && |p| < TWO_63
    requires s.merge(Decode(s, m, a).value, BytesField(tag / 8, p)).Some?
    ensures Decode(s, m, a + BytesRecord(tag, p)) == s.merge(Decode(s, m, a).value, BytesField(tag / 8, p))
  {
    hide ReadField;
    DecodeConcat(s, m, a, BytesRecord(tag, p));
    DecodeBytesRecord(s, Decode(s, m, a).value, tag, p, []);
    assert BytesRecord(tag, p) + [] == BytesRecord(tag, p);
  }

  lemma LastOneWinsInTimestamp(m: Timestamp, a: bytes, v: uint64)
    requires Decode(TimestampSchema, m, a).Some?
    ensures var r := Decode(TimestampSchema, m, a).value;
      && Decode(TimestampSchema, m, a + VarintRecord(0x08, v)) == Some(r.(seconds := ToInt64(v)))
      && Decode(TimestampSchema, m, a + VarintRecord(0x10, v)) == Some(r.(nanos := ToInt32(v)))
  {
    hide Decode, VarintRecord;
    ThenScalar(TimestampSchema, m, a, 0x08, v);
    ThenScalar(TimestampSchema, m, a, 0x10, v);
  }

  lemma LastOneWinsInHeader(m: Header, a: bytes, v: uint64, p: bytes)
    requires Decode(HeaderSchema, m, a).Some? && |p| < TWO_63
    ensures var r := Decode(HeaderSchema, m, a).value;
      && Decode(HeaderSchema, m, a + VarintRecord(0x08, v)) == Some(r.(ledgerVersion := ToUint32(v)))
      && Decode(HeaderSchema, m, a + BytesRecord(0x12, p)) == Some(r.(previousLedgerHash := p))
      && Decode(HeaderSchema, m, a + VarintRecord(0x18, v)) == Some(r.(totalCoins := ToInt64(v)))
      && Decode(HeaderSchema, m, a + VarintRecord(0x20, v)) == Some(r.(baseFee := ToUint32(v)))
      && Decode(HeaderSchema, m, a + VarintRecord(0x28, v)) == Some(r.(baseReserve := ToUint32(v)))
  {
    hide Decode, VarintRecord, BytesRecord;
    ThenScalar(HeaderSchema, m, a, 0x08, v);
    ThenBytes(HeaderSchema, m, a, 0x12, p);
    ThenScalar(HeaderSchema, m, a, 0x18, v);
    ThenScalar(HeaderSchema, m, a, 0x20, v);
    ThenScalar(HeaderSchema, m, a, 0x28, v);
  }

  lemma LastOneWinsInTransaction(m: Transaction, a: bytes, v: uint64, p: bytes)
    requires Decode(TransactionSchema, m, a).Some? && |p| < TWO_63
    ensures var r := Decode(TransactionSchema, m, a).value;
      && Decode(TransactionSchema, m, a + BytesRecord(0x0a, p)) == Some(r.(hash := p))
      && Decode(TransactionSchema, m, a + VarintRecord(0x10, v)) == Some(r.(status := ToInt32(v)))
      && Decode(TransactionSchema, m, a + VarintRecord(0x28, v)) == Some(r.(applicationOrder := v))
      && Decode(TransactionSchema, m, a + BytesRecord(0x32, p)) == Some(r.(envelopeXdr := p))
      && Decode(TransactionSchema, m, a + BytesRecord(0x42, p)) == Some(r.(resultXdr := p))
  {
    hide Decode, VarintRecord, BytesRecord;
    ThenBytes(TransactionSchema, m, a, 0x0a, p);
    ThenScalar(TransactionSchema, m, a, 0x10, v);
    ThenScalar(TransactionSchema, m, a, 0x28, v);
    ThenBytes(TransactionSchema, m, a, 0x32, p);
    ThenBytes(TransactionSchema, m, a, 0x42, p);
  }

  lemma LastOneWinsInBlock(m: Block, a: bytes, v: uint64, p: bytes)
    requires Decode(BlockSchema, m, a).Some? && |p| < TWO_63
    ensures var r := Decode(BlockSchema, m, a).value;
      && Decode(BlockSchema, m, a + VarintRecord(0x08, v)) == Some(r.(number := v))
      && Decode(BlockSchema, m, a + BytesRecord(0x12, p)) == Some(r.(hash := p))
      && Decode(BlockSchema, m, a + VarintRecord(0x20, v)) == Some(r.(version := ToInt64(v)))
  {
    hide Decode, VarintRecord, BytesRecord;
    ThenScalar(BlockSchema, m, a, 0x08, v);
    ThenBytes(BlockSchema, m, a, 0x12, p);
    ThenScalar(BlockSchema, m, a, 0x20, v);
  }

  // ---- a sub-message in two records ----

  lemma OneRecord<M>(s: Schema<M>, m: M, tag: byte, p: bytes)
    requires 8 <= tag < 128 && tag % 8 == 2 && s.kind(tag / 8) == BytesKind && |p| < TWO_63
    ensures Decode(s, m, BytesRecord(tag, p)) == s.merge(m, BytesField(tag / 8, p))
  {
    ReadBytesRecord(s.kind, tag, p, []);
    assert BytesRecord(tag, p) + [] == BytesRecord(tag, p);
    assert BytesRecord(tag, p)[|BytesRecord(tag, p)|..] == [];
    hide ReadField;
  }

  /** Two records one after the other merge the second into what the first left. */
  lemma TwoRecords<M>(s: Schema<M>, m: M, tag: byte, p: bytes, q: bytes)
    requires 8 <= tag < 128 && tag % 8 == 2 && s.kind(tag / 8) == BytesKind && |p + q| < TWO_63
    requires s.merge(m, BytesField(tag / 8, p)).Some?
    ensures Decode(s, m, BytesRecord(tag, p) + BytesRecord(tag, q))
         == s.merge(s.merge(m, BytesField(tag / 8, p)).value, BytesField(tag / 8, q))
    ensures Decode(s, m, BytesRecord(tag, p + q)) == s.merge(m, BytesField(tag / 8, p + q))
  {
    hide ReadField;
    OneRecord(s, m, tag, p + q);
    OneRecord(s, s.merge(m, BytesField(tag / 8, p)).value, tag, q);
    DecodeBytesRecord(s, m, tag, p, BytesRecord(tag, q));
  }

  lemma SplitHeader(m: Block, p: bytes, q: bytes)
    requires |p + q| < TWO_63 && Decode(HeaderSchema, OrElse(m.header, NO_HEADER), p).Some?
    ensures Decode(BlockSchema, m, BytesRecord(0x1a, p) + BytesRecord(0x1a, q))
         == Decode(BlockSchema, m, BytesRecord(0x1a, p + q))
  {
    hide Decode, BytesRecord;
    TwoRecords(BlockSchema, m, 0x1a, p, q);
    DecodeConcat(HeaderSchema, OrElse(m.header, NO_HEADER), p, q);
  }

  lemma SplitBlockTime(m: Block, p: bytes, q: bytes)
    requires |p + q| < TWO_63 && Decode(TimestampSchema, OrElse(m.createdAt, NO_TIMESTAMP), p).Some?
    ensures Decode(BlockSchema, m, BytesRecord(0x4a, p) + BytesRecord(0x4a, q))
         == Decode(BlockSchema, m, BytesRecord(0x4a, p + q))
  {
    hide Decode, BytesRecord;
    TwoRecords(BlockSchema, m, 0x4a, p, q);
    DecodeConcat(TimestampSchema, OrElse(m.createdAt, NO_TIMESTAMP), p, q);
  }

  lemma SplitTransactionTime(m: Transaction, p: bytes, q: bytes)
    requires |p + q| < TWO_63 && Decode(TimestampSchema, OrElse(m.createdAt, NO_TIMESTAMP), p).Some?
    ensures Decode(TransactionSchema, m, BytesRecord(0x1a, p) + BytesRecord(0x1a, q))
         == Decode(TransactionSchema, m, BytesRecord(0x1a, p + q))
  {
    hide Decode, BytesRecord;
    TwoRecords(TransactionSchema, m, 0x1a, p, q);
    DecodeConcat(TimestampSchema, OrElse(m.createdAt, NO_TIMESTAMP), p, q);
  }

  lemma SplitEvents(m: Transaction, p: bytes, q: bytes)
    requires |p + q| < TWO_63 && Decode(EventsSchema, OrElse(m.events, NO_EVENTS), p).Some?
    ensures Decode(TransactionSchema, m, BytesRecord(0x4a, p) + BytesRecord(0x4a, q))
         == Decode(TransactionSchema, m, BytesRecord(0x4a, p + q))
  {
    hide Decode, BytesRecord;
    TwoRecords(TransactionSchema, m, 0x4a, p, q);
    DecodeConcat(EventsSchema, OrElse(m.events, NO_EVENTS), p, q);
  }

  /** A transaction is appended as it decodes on its own, whatever the block holds already. */
  lemma TransactionsAreAppended(m: Block, a: bytes, t: Transaction)
    requires Decode(BlockSchema, m, a).Some? && TransactionOk(t) && |EncodeTransaction(t)| < TWO_63
    ensures var r := Decode(BlockSchema, m, a).value;
      Decode(BlockSchema, m, a + BytesRecord(0x32, EncodeTransaction(t)))
        == Some(r.(transactions := r.transactions + [t]))
  {
    hide Decode, BytesRecord, EncodeTransaction, TransactionOk;
    TransactionRoundTrip(t);
    ThenBytes(BlockSchema, m, a, 0x32, EncodeTransaction(t));
  }
}
