/** A block as a mutable object, with its header, transactions and timestamp. */
module BlockObject {
  import opened Base
  import opened Bits
  import opened Varints
  import opened Wire
  import opened WireIO
  import opened LeafObjects
  import opened EventsObject
  import opened TransactionObject
  import M = Messages

  ghost function NonNil(ts: seq<Transaction?>): set<Transaction> {
    set t: Transaction | t in ts
  }

  ghost function Stamps(ts: seq<Transaction?>): set<Timestamp?>
    reads NonNil(ts)
  {
    set t: Transaction | t in ts :: t.createdAt
  }

  ghost function EventsOf(ts: seq<Transaction?>): set<Events?>
    reads NonNil(ts)
  {
    set t: Transaction | t in ts :: t.events
  }

  ghost function ContractsOf(ts: seq<Transaction?>): set<ContractEvent>
    reads NonNil(ts), EventsOf(ts)
  {
    set t: Transaction, c: ContractEvent
      | t in ts && t.events != null && c in NonNilContracts(t.events.contractEventsXdr) :: c
  }

  ghost function TransactionValues(ts: seq<Transaction?>): (vs: seq<M.Transaction>)
    reads NonNil(ts), Stamps(ts), EventsOf(ts), ContractsOf(ts)
    ensures |vs| == |ts| && forall i :: 0 <= i < |ts| ==> vs[i] == Transaction.Of(ts[i])
  {
    seq(|ts|, i requires 0 <= i < |ts| reads NonNil(ts), Stamps(ts), EventsOf(ts), ContractsOf(ts) =>
      Transaction.Of(ts[i]))
  }

  twostate lemma SameTransactions(ts: seq<Transaction?>)
    requires forall t :: t in NonNil(ts) ==> Untouched(t)
    ensures TransactionValues(ts) == old(TransactionValues(ts))
  {
    forall i | 0 <= i < |ts|
      ensures Transaction.Of(ts[i]) == old(Transaction.Of(ts[i]))
    {
      if ts[i] != null {
        SameTransaction(ts[i]);
      }
    }
  }

  lemma NoTransactions()
    ensures M.RepeatedTransactions([]) == []
  {
  }

  lemma RepeatedTransactionsAt(ts: seq<M.Transaction>, k: nat)
    requires k < |ts|
    ensures M.RepeatedTransactions(ts[k..])
         == BytesRecord(0x32, M.EncodeTransaction(ts[k])) + M.RepeatedTransactions(ts[k + 1..])
    ensures |M.RepeatedTransactions(ts[k..])| <= |M.RepeatedTransactions(ts)|
  {
    hide BytesRecord, M.EncodeTransaction;
    assert ts[k..][0] == ts[k] && ts[k..][1..] == ts[k + 1..];
    RepeatedTransactionsSuffix(ts, k);
  }

  lemma {:induction false} RepeatedTransactionsSuffix(ts: seq<M.Transaction>, k: nat)
    requires k <= |ts|
    ensures |M.RepeatedTransactions(ts[k..])| <= |M.RepeatedTransactions(ts)|
    decreases k
  {
    hide BytesRecord, M.EncodeTransaction;
    if k > 0 {
      assert ts[k..] == ts[1..][k - 1..];
      RepeatedTransactionsSuffix(ts[1..], k - 1);
    } else {
      assert ts[0..] == ts;
    }
  }

  class Block {
    var number: uint64
    var hash: bytes
    var header: Header?
    var version: int64
    var transactions: seq<Transaction?>
    var createdAt: Timestamp?
    var unknownFields: bytes

    ghost function Value(): M.Block
      reads this, header, createdAt
      reads NonNil(transactions), Stamps(transactions), EventsOf(transactions), ContractsOf(transactions)
    {
      M.Block(number, hash, if header == null then None else Some(header.Value()), version,
              TransactionValues(transactions),
              if createdAt == null then None else Some(createdAt.Value()), unknownFields)
    }

    /** The block's timestamp is not also one of its transactions'. */
    ghost predicate Separate()
      reads this, NonNil(transactions)
    {
      createdAt != null ==> forall t :: t in NonNil(transactions) ==> t.createdAt != createdAt
    }

    constructor ()
      ensures Value() == M.NO_BLOCK && Separate()
      ensures header == null && createdAt == null && transactions == []
    {
      number, hash, header, version := 0, [], null, 0;
      transactions, createdAt, unknownFields := [], null, [];
      new;
      assert TransactionValues([]) == [];
    }

    constructor Make(number: uint64, hash: bytes, header: Header?, version: int64,
        transactions: seq<Transaction?>, createdAt: Timestamp?, unknownFields: bytes)
      ensures this.header == header && this.transactions == transactions && this.createdAt == createdAt
      ensures Value() == M.Block(
        number, hash, if header == null then None else Some(header.Value()), version,
        TransactionValues(transactions), if createdAt == null then None else Some(createdAt.Value()), unknownFields)
    {
      this.number, this.hash, this.header, this.version := number, hash, header, version;
      this.transactions, this.createdAt, this.unknownFields := transactions, createdAt, unknownFields;
    }

    method SizeVT() returns (n: nat)
      requires |M.EncodeBlock(Value())| < TWO_63
      ensures n == |M.EncodeBlock(old(Value()))|
    {
      hide OptVarint, OptBytes, BytesRecord, M.EncodeTimestamp, M.EncodeHeader, M.RepeatedTransactions;
      ghost var v := Value();
      n := SizeOfOptVarint(number);
      n := n + SizeOfOptBytes(hash);
      var l := SizeOfOptHeader(header, v.header);
      n := n + l;
      n := n + SizeOfOptVarint(ToUint64(version));
      SameTransactions(transactions);
      l := SizeOfTransactions(transactions);
      n := n + l;
      l := SizeOfOptTimestamp(createdAt, 0x4a, v.createdAt);
      n := n + l;
      n := n + |unknownFields|;
    }

    method MarshalToSizedBufferVT(dAtA: array<byte>, end: nat) returns (size: nat)
      requires |M.EncodeBlock(Value())| <= end <= dAtA.Length < TWO_63
      modifies dAtA
      ensures size == |M.EncodeBlock(old(Value()))|
      ensures dAtA[end - size..] == M.EncodeBlock(old(Value())) + old(dAtA[end..])
      ensures dAtA[..end - size] == old(dAtA[..end - size])
    {
      hide OptVarint, OptBytes, M.EncodeOptTimestamp, M.EncodeOptHeader, M.RepeatedTransactions;
      ghost var v := Value();
      ghost var tail, base := dAtA[end..], dAtA[..];
      var number, hash, header, version := number, hash, header, version;
      var i := MarshalTail(dAtA, end);
      ghost var done := M.RepeatedTransactions(v.transactions) + (M.EncodeOptTimestamp(0x4a, v.createdAt) + v.unknown);
      i := WriteOptVarint(dAtA, i, 0x20, ToUint64(version), done, tail, base);
      done := OptVarint(0x20, ToUint64(version)) + done;
      i := MarshalOptHeader(header, dAtA, i, v.header, done, tail, base);
      done := M.EncodeOptHeader(v.header) + done;
      i := WriteOptBytes(dAtA, i, 0x12, hash, done, tail, base);
      done := OptBytes(0x12, hash) + done;
      i := WriteOptVarint(dAtA, i, 0x08, number, done, tail, base);
      size := end - i;
    }

    /** The first half of the backward pass: unknown bytes, timestamp and transactions. */
    method MarshalTail(dAtA: array<byte>, end: nat) returns (i: nat)
      requires |M.RepeatedTransactions(Value().transactions)
                + (M.EncodeOptTimestamp(0x4a, Value().createdAt) + unknownFields)| <= end <= dAtA.Length < TWO_63
      modifies dAtA
      ensures var v := old(Value());
        var done := M.RepeatedTransactions(v.transactions) + (M.EncodeOptTimestamp(0x4a, v.createdAt) + v.unknown);
        i == end - |done| && dAtA[i..] == done + old(dAtA[end..])
      ensures dAtA[..i] == old(dAtA[..i])
    {
      hide M.EncodeOptTimestamp, M.RepeatedTransactions;
      ghost var v := Value();
      ghost var tail, base := dAtA[end..], dAtA[..];
      var u, ts, t := unknownFields, transactions, createdAt;
      i := end - |u|;
      CopyAt(dAtA, i, u);
      i := MarshalOptTimestamp(t, dAtA, i, 0x4a, v.createdAt, u, tail, base);
      SameTransactions(ts);
      i := MarshalTransactions(ts, dAtA, i, v.transactions, M.EncodeOptTimestamp(0x4a, v.createdAt) + u, tail, base);
    }

    method MarshalVT() returns (dAtA: array<byte>)
      requires |M.EncodeBlock(Value())| < TWO_63
      ensures fresh(dAtA) && dAtA[..] == M.EncodeBlock(old(Value()))
    {
      ghost var v := Value();
      var size := SizeVT();
      SameTransactions(transactions);
      dAtA := new byte[size];
      SameTransactions(transactions);
      var n := MarshalToSizedBufferVT(dAtA, size);
      assert dAtA[size - n..] == dAtA[..] && dAtA[size..] == [];
    }

    /** Assigning the object's own fields leaves its sub-messages alone. */
    twostate lemma SubMessagesKept()
      requires header == old(header) && createdAt == old(createdAt) && transactions == old(transactions)
      requires header != null ==> unchanged(header)
      requires createdAt != null ==> unchanged(createdAt)
      requires forall t :: t in NonNil(transactions) ==> Untouched(t)
      ensures Value().header == old(Value()).header && Value().createdAt == old(Value()).createdAt
      ensures Value().transactions == old(Value()).transactions
      ensures old(Separate()) ==> Separate()
    {
      SameTransactions(transactions);
    }

    /** Merges into the header already there, or into a new one. */
    method UnmarshalHeader(dAtA: bytes) returns (err: Error)
      requires |dAtA| < TWO_63 && Separate()
      modifies this`header, header
      ensures header == old(header) || fresh(header)
      ensures Separate()
      ensures var h := Decode(M.HeaderSchema, M.OrElse(old(Value()).header, M.NO_HEADER), dAtA);
        (err == NoError <==> h.Some?) && (err == NoError ==> Value() == old(Value()).(header := h))
    {
      hide Decode;
      if header == null {
        header := new Header();
      }
      err := header.UnmarshalVT(dAtA);
      SameTransactions(transactions);
    }

    /** Merges into the timestamp already there, or into a new one. */
    method UnmarshalCreatedAt(dAtA: bytes) returns (err: Error)
      requires |dAtA| < TWO_63 && Separate()
      modifies this`createdAt, createdAt
      ensures createdAt == old(createdAt) || fresh(createdAt)
      ensures Separate()
      ensures var t := Decode(M.TimestampSchema, M.OrElse(old(Value()).createdAt, M.NO_TIMESTAMP), dAtA);
        (err == NoError <==> t.Some?) && (err == NoError ==> Value() == old(Value()).(createdAt := t))
    {
      hide Decode;
      if createdAt == null {
        createdAt := new Timestamp();
      }
      err := createdAt.UnmarshalVT(dAtA);
      SameTransactions(transactions);
    }

    /** A transaction appended empty, then filled in. */
    method UnmarshalTransaction(dAtA: bytes) returns (err: Error)
      requires |dAtA| < TWO_63 && Separate()
      modifies this`transactions
      ensures Separate()
      ensures var t := Decode(M.TransactionSchema, M.NO_TRANSACTION, dAtA);
        (err == NoError <==> t.Some?)
        && (err == NoError ==> Value() == old(Value()).(transactions := old(Value()).transactions + [t.value]))
    {
      hide Decode;
      ghost var was := Value();
      var t := new Transaction();
      transactions := transactions + [t];
      err := t.UnmarshalVT(dAtA);
      SameTransactions(old(transactions));
      if err == NoError {
        assert TransactionValues(transactions) == was.transactions + [t.Value()];
      }
    }

    /** The cases of the varint fields. */
    method MergeScalarField(dAtA: bytes, iNdEx: nat, next: nat, fieldNum: int, wireType: int) returns (err: Error,
        end: nat)
      requires |dAtA| < TWO_63 && TagAt(dAtA, iNdEx, next, fieldNum, wireType) && (fieldNum == 1 || fieldNum == 4)
      requires Separate()
      modifies this`number, this`version
      ensures (header == old(header) || fresh(header)) && (createdAt == old(createdAt) || fresh(createdAt))
      ensures Separate()
      ensures err != NoError ==> Decode(M.BlockSchema, old(Value()), dAtA[iNdEx..]) == None
      ensures err == NoError ==> iNdEx < end <= |dAtA|
      ensures err == NoError ==>
        Decode(M.BlockSchema, old(Value()), dAtA[iNdEx..]) == Decode(M.BlockSchema, Value(), dAtA[end..])
    {
      hide ReadVarint, ReadLength, Decode, Low;
      var v;
      end := next;
      ScalarStep(M.BlockSchema, Value(), dAtA, iNdEx, next, fieldNum, wireType);
      if fieldNum == 1 {
        err, v, end := ReadScalar(dAtA, next, wireType, TWO_64);
        if err != NoError { return; }
        LowOfUint64(ReadVarint(dAtA[next..]).value.0);
        number := v;
      } else {
        err, v, end := ReadScalar(dAtA, next, wireType, TWO_64);
        if err != NoError { return; }
        LowOfUint64(ReadVarint(dAtA[next..]).value.0);
        version := ToInt64(v);
      }
      SubMessagesKept();
    }

    /** The case of the hash. */
    method MergeHash(dAtA: bytes, iNdEx: nat, next: nat, fieldNum: int, wireType: int) returns (err: Error, end: nat)
      requires |dAtA| < TWO_63 && TagAt(dAtA, iNdEx, next, fieldNum, wireType) && (fieldNum == 2)
      requires Separate()
      modifies this`hash
      ensures (header == old(header) || fresh(header)) && (createdAt == old(createdAt) || fresh(createdAt))
      ensures Separate()
      ensures err != NoError ==> Decode(M.BlockSchema, old(Value()), dAtA[iNdEx..]) == None
      ensures err == NoError ==> iNdEx < end <= |dAtA|
      ensures err == NoError ==>
        Decode(M.BlockSchema, old(Value()), dAtA[iNdEx..]) == Decode(M.BlockSchema, Value(), dAtA[end..])
    {
      hide ReadVarint, ReadLength, Decode, Low;
      var lo, hi;
      end := next;
      SliceStep(M.BlockSchema, Value(), dAtA, iNdEx, next, fieldNum, wireType);
      err, lo, hi := ReadSlice(dAtA, next, wireType);
      if err != NoError { return; }
      end := hi;
      SameTransactions(transactions);
      {
        hash := dAtA[lo..hi];
      }
      SubMessagesKept();
    }

    /** The cases of the sub-messages. */
    method MergeMessageField(dAtA: bytes, iNdEx: nat, next: nat, fieldNum: int, wireType: int) returns (err: Error,
        end: nat)
      requires |dAtA| < TWO_63 && TagAt(dAtA, iNdEx, next, fieldNum, wireType)
      requires fieldNum == 3 || fieldNum == 6 || fieldNum == 9
      requires Separate()
      modifies this`header, this`createdAt, this`transactions, header, createdAt
      ensures (header == old(header) || fresh(header)) && (createdAt == old(createdAt) || fresh(createdAt))
      ensures Separate()
      ensures err != NoError ==> Decode(M.BlockSchema, old(Value()), dAtA[iNdEx..]) == None
      ensures err == NoError ==> iNdEx < end <= |dAtA|
      ensures err == NoError ==>
        Decode(M.BlockSchema, old(Value()), dAtA[iNdEx..]) == Decode(M.BlockSchema, Value(), dAtA[end..])
    {
      hide ReadVarint, ReadLength, Decode, Low;
      var lo, hi;
      end := next;
      SliceStep(M.BlockSchema, Value(), dAtA, iNdEx, next, fieldNum, wireType);
      err, lo, hi := ReadSlice(dAtA, next, wireType);
      if err != NoError { return; }
      end := hi;
      SameTransactions(transactions);
      if fieldNum == 3 {
        err := UnmarshalHeader(dAtA[lo..hi]);
      } else if fieldNum == 6 {
        err := UnmarshalTransaction(dAtA[lo..hi]);
      } else {
        err := UnmarshalCreatedAt(dAtA[lo..hi]);
      }
    }

    /** One turn of the decoding loop: reads the field at `iNdEx` and merges it in. */
    method MergeField(dAtA: bytes, iNdEx: nat) returns (err: Error, end: nat)
      requires iNdEx < |dAtA| < TWO_63
      requires Separate()
      modifies this, header, createdAt
      ensures (header == old(header) || fresh(header)) && (createdAt == old(createdAt) || fresh(createdAt))
      ensures Separate()
      ensures err != NoError ==> Decode(M.BlockSchema, old(Value()), dAtA[iNdEx..]) == None
      ensures err == NoError ==> iNdEx < end <= |dAtA|
      ensures err == NoError ==>
        Decode(M.BlockSchema, old(Value()), dAtA[iNdEx..]) == Decode(M.BlockSchema, Value(), dAtA[end..])
    {
      hide ReadVarint, Skip, Decode;
      end := iNdEx;
      var fieldNum, wireType, next;
      err, fieldNum, wireType, next := ReadTag(dAtA, iNdEx);
      if err != NoError {
        TagFails(M.BlockSchema, old(Value()), dAtA, iNdEx);
        return;
      }
      SameTransactions(transactions);
      if fieldNum == 1 || fieldNum == 4 {
        err, end := MergeScalarField(dAtA, iNdEx, next, fieldNum, wireType);
      } else if fieldNum == 2 {
        err, end := MergeHash(dAtA, iNdEx, next, fieldNum, wireType);
      } else if fieldNum == 3 || fieldNum == 6 || fieldNum == 9 {
        err, end := MergeMessageField(dAtA, iNdEx, next, fieldNum, wireType);
      } else {
        UnknownStep(M.BlockSchema, old(Value()), dAtA, iNdEx, next, fieldNum, wireType);
        err, end := SkipUnknown(dAtA, iNdEx);
        if err != NoError { return; }
        unknownFields := unknownFields + dAtA[iNdEx..end];
        SubMessagesKept();
      }
    }

    method UnmarshalVT(dAtA: bytes) returns (err: Error)
      requires |dAtA| < TWO_63
      requires Separate()
      modifies this, header, createdAt
      ensures (header == old(header) || fresh(header)) && (createdAt == old(createdAt) || fresh(createdAt))
      ensures Separate()
      ensures err == NoError <==> Decode(M.BlockSchema, old(Value()), dAtA).Some?
      ensures err == NoError ==> Value() == Decode(M.BlockSchema, old(Value()), dAtA).value
    {
      hide Decode;
      err := NoError;
      var iNdEx := 0;
      assert dAtA[0..] == dAtA;
      while iNdEx < |dAtA|
        invariant 0 <= iNdEx <= |dAtA| && err == NoError
        invariant (header == old(header) || fresh(header)) && (createdAt == old(createdAt) || fresh(createdAt))
        invariant Separate()
        invariant Decode(M.BlockSchema, old(Value()), dAtA) == Decode(M.BlockSchema, Value(), dAtA[iNdEx..])
      {
        err, iNdEx := MergeField(dAtA, iNdEx);
        if err != NoError { return; }
      }
      DecodeEnd(M.BlockSchema, Value(), dAtA[iNdEx..]);
    }

    static method EqualVT(m: Block?, that: Block?) returns (same: bool)
      ensures same <==> (m == null <==> that == null) && (m != null && that != null ==> old(m.Value() == that.Value()))
    {
      if m == that {
        return true;
      }
      if m == null || that == null {
        return false;
      }
      if m.number != that.number {
        return false;
      }
      if m.hash != that.hash {
        return false;
      }
      same := Header.EqualVT(m.header, that.header);
      if !same { return; }
      if m.version != that.version {
        return false;
      }
      SameTransactions(m.transactions);
      SameTransactions(that.transactions);
      same := EqualTransactions(m.transactions, that.transactions);
      if !same { return; }
      same := Timestamp.EqualVT(m.createdAt, that.createdAt);
      if !same { return; }
      return m.unknownFields == that.unknownFields;
    }

    static method CloneVT(m: Block?) returns (r: Block?)
      ensures m == null <==> r == null
      ensures m != null ==>
        && fresh(r) && (r.header != null ==> fresh(r.header)) && (r.createdAt != null ==> fresh(r.createdAt))
        && (forall t :: t in NonNil(r.transactions) ==> fresh(t.Reach()))
        && r.Value() == old(m.Value()) && r.Separate()
    {
      if m == null {
        return null;
      }
      var h := Header.CloneVT(m.header);
      SameTransactions(m.transactions);
      var ts := CloneTransactions(m.transactions);
      label Cloned:
      var t := Timestamp.CloneVT(m.createdAt);
      SameTransactions@Cloned(ts);
      r := new Block.Make(m.number, m.hash, h, m.version, ts, t, m.unknownFields);
      SameTransactions@Cloned(ts);
    }
  }

  method SizeOfOptHeader(h: Header?, ghost v: Option<M.Header>) returns (n: nat)
    requires v == (if h == null then None else Some(h.Value())) && |M.EncodeOptHeader(v)| < TWO_63
    ensures n == |M.EncodeOptHeader(v)|
  {
    hide BytesRecord, M.EncodeHeader;
    n := 0;
    if h != null {
      var l := h.SizeVT();
      n := SizeOfRecord(l);
    }
  }

  method SizeOfTransactions(ts: seq<Transaction?>) returns (n: nat)
    requires |M.RepeatedTransactions(TransactionValues(ts))| < TWO_63
    ensures n == |M.RepeatedTransactions(old(TransactionValues(ts)))|
  {
    hide BytesRecord, M.EncodeTransaction, M.RepeatedTransactions;
    n := 0;
    ghost var vs := TransactionValues(ts);
    assert vs[0..] == vs;
    for i := 0 to |ts|
      invariant TransactionValues(ts) == vs
      invariant n + |M.RepeatedTransactions(vs[i..])| == |M.RepeatedTransactions(vs)|
    {
      RepeatedTransactionsAt(vs, i);
      label Before:
      var l := Transaction.SizeVT(ts[i]);
      SameTransactions@Before(ts);
      n := n + SizeOfRecord(l);
    }
    NoTransactions();
    assert vs[|ts|..] == [];
  }

  method MarshalOptHeader(h: Header?, dAtA: array<byte>, i: nat, ghost v: Option<M.Header>,
      ghost done: bytes, ghost tail: bytes, ghost base: bytes)
    returns (start: nat)
    requires v == (if h == null then None else Some(h.Value())) && |M.EncodeOptHeader(v)| <= i <= dAtA.Length < TWO_63
    requires dAtA[i..] == done + tail && i <= |base| && dAtA[..i] == base[..i]
    modifies dAtA
    ensures start == i - |M.EncodeOptHeader(v)|
    ensures dAtA[start..] == (M.EncodeOptHeader(v) + done) + tail
    ensures dAtA[..start] == base[..start]
  {
    hide BytesRecord, M.EncodeHeader;
    start := i;
    if h != null {
      var size := h.MarshalToSizedBufferVT(dAtA, start);
      start := start - size;
      assert dAtA[..start] == base[..i][..start];
      start := WriteMessageHead(dAtA, start, 0x1a, size, M.EncodeHeader(v.value), done, tail, base);
    } else {
      assert [] + done == done;
    }
  }

  /** The backward loop over the transactions. */
  method MarshalTransactions(ts: seq<Transaction?>, dAtA: array<byte>, i: nat, ghost vs: seq<M.Transaction>,
      ghost done: bytes, ghost tail: bytes, ghost base: bytes)
    returns (start: nat)
    requires vs == TransactionValues(ts) && |M.RepeatedTransactions(vs)| <= i <= dAtA.Length < TWO_63
    requires dAtA[i..] == done + tail && i <= |base| && dAtA[..i] == base[..i]
    modifies dAtA
    ensures start == i - |M.RepeatedTransactions(vs)|
    ensures dAtA[start..] == (M.RepeatedTransactions(vs) + done) + tail
    ensures dAtA[..start] == base[..start]
  {
    hide BytesRecord, M.EncodeTransaction, M.RepeatedTransactions;
    start := i;
    NoTransactions();
    assert vs[|ts|..] == [] && [] + done == done;
    for iNdEx := |ts| downto 0
      invariant TransactionValues(ts) == vs
      invariant start == i - |M.RepeatedTransactions(vs[iNdEx..])| && |M.RepeatedTransactions(vs[iNdEx..])| <= i
      invariant dAtA[start..] == (M.RepeatedTransactions(vs[iNdEx..]) + done) + tail
      invariant dAtA[..start] == base[..start]
    {
      RepeatedTransactionsAt(vs, iNdEx);
      label Before:
      ghost var written := M.RepeatedTransactions(vs[iNdEx + 1..]);
      start := MarshalOneTransaction(ts[iNdEx], dAtA, start, vs[iNdEx], written, done, tail, base);
      SameTransactions@Before(ts);
    }
    assert vs[0..] == vs;
  }

  /** One turn of the backward loop: the transaction, its length and its tag. */
  method MarshalOneTransaction(t: Transaction?, dAtA: array<byte>, i: nat, ghost v: M.Transaction, ghost written: bytes,
      ghost done: bytes, ghost tail: bytes, ghost base: bytes)
    returns (start: nat)
    requires v == Transaction.Of(t) && |BytesRecord(0x32, M.EncodeTransaction(v))| <= i <= dAtA.Length < TWO_63
    requires dAtA[i..] == (written + done) + tail && i <= |base| && dAtA[..i] == base[..i]
    modifies dAtA
    ensures start == i - |BytesRecord(0x32, M.EncodeTransaction(v))|
    ensures dAtA[start..] == ((BytesRecord(0x32, M.EncodeTransaction(v)) + written) + done) + tail
    ensures dAtA[..start] == base[..start]
  {
    hide BytesRecord, M.EncodeTransaction;
    ghost var p := M.EncodeTransaction(v);
    var size := Transaction.MarshalToSizedBufferVT(t, dAtA, i);
    start := i - size;
    assert dAtA[..start] == base[..i][..start];
    start := WriteMessageHead(dAtA, start, 0x32, size, p, written + done, tail, base);
    assert BytesRecord(0x32, p) + (written + done) == (BytesRecord(0x32, p) + written) + done;
  }

  /** The element loop for repeated messages: nil counts as empty. */
  method EqualTransactions(xs: seq<Transaction?>, ys: seq<Transaction?>) returns (same: bool)
    ensures same <==> old(TransactionValues(xs) == TransactionValues(ys))
  {
    if |xs| != |ys| {
      return false;
    }
    ghost var vs, ws := TransactionValues(xs), TransactionValues(ys);
    for i := 0 to |xs|
      invariant TransactionValues(xs) == vs && TransactionValues(ys) == ws
      invariant forall j :: 0 <= j < i ==> vs[j] == ws[j]
    {
      label Before:
      var eq := EqualElements(xs[i], ys[i]);
      SameTransactions@Before(xs);
      SameTransactions@Before(ys);
      if !eq {
        return false;
      }
    }
    return true;
  }

  /** The body of that loop. */
  method EqualElements(x: Transaction?, y: Transaction?) returns (same: bool)
    ensures same <==> old(Transaction.Of(x) == Transaction.Of(y))
  {
    var p, q := x, y;
    if p == q {
      return true;
    }
    if p == null { p := new Transaction(); }
    if q == null { q := new Transaction(); }
    if x != null { SameTransaction(x); }
    if y != null { SameTransaction(y); }
    same := Transaction.EqualVT(p, q);
  }

  method CloneTransactions(ts: seq<Transaction?>) returns (rs: seq<Transaction?>)
    ensures TransactionValues(rs) == old(TransactionValues(ts))
    ensures forall t :: t in NonNil(rs) ==> fresh(t.Reach())
  {
    rs := [];
    ghost var vs := TransactionValues(ts);
    for k := 0 to |ts|
      invariant |rs| == k && TransactionValues(ts) == vs
      invariant TransactionValues(rs) == vs[..k]
      invariant forall t :: t in NonNil(rs) ==> fresh(t.Reach())
    {
      label Before:
      var t := Transaction.CloneVT(ts[k]);
      SameTransactions@Before(ts);
      SameTransactions@Before(rs);
      assert NonNil(rs + [t]) == NonNil(rs) + (if t == null then {} else {t});
      assert TransactionValues(rs + [t]) == TransactionValues(rs) + [Transaction.Of(t)];
      rs := rs + [t];
    }
  }

  /** Nobody wrote to the transaction or to what it points to, except perhaps to one timestamp. */
  twostate predicate UntouchedBut(t: Transaction, written: Timestamp)
    reads t, t.createdAt, t.events
    reads if t.events == null then {} else NonNilContracts(t.events.contractEventsXdr)
  {
    && unchanged(t)
    && (t.createdAt != null && t.createdAt != written ==> unchanged(t.createdAt))
    && (t.events != null ==>
          unchanged(t.events) && forall c :: c in NonNilContracts(t.events.contractEventsXdr) ==> unchanged(c))
  }

  /**
   Why UnmarshalVT asks for Separate: where a transaction points to the block's own timestamp
   object, whatever is merged into that object is written through the transaction as well.
   The block then gets a new timestamp and nothing else, as it should, exactly when the
   timestamp's value did not change.
   */
  twostate lemma SharedTimestampIsWrittenThrough(b: Block, k: nat)
    requires b.createdAt != null && k < |b.transactions|
    requires b.transactions[k] != null && b.transactions[k].createdAt == b.createdAt
    requires unchanged(b) && (b.header != null ==> unchanged(b.header))
    requires forall t :: t in NonNil(b.transactions) ==> UntouchedBut(t, b.createdAt)
    ensures b.Value() == old(b.Value()).(createdAt := Some(b.createdAt.Value()))
       <==> b.createdAt.Value() == old(b.createdAt.Value())
  {
    var ts := b.transactions;
    assert ts[k] in NonNil(ts);
    assert TransactionValues(ts)[k] == Transaction.Of(ts[k]);
    assert old(TransactionValues(ts))[k] == old(Transaction.Of(ts[k]));
    if b.createdAt.Value() == old(b.createdAt.Value()) {
      forall i | 0 <= i < |ts| ensures Transaction.Of(ts[i]) == old(Transaction.Of(ts[i])) {
        if ts[i] != null {
          assert ts[i] in NonNil(ts);
          if ts[i].events != null {
            SameEvents(ts[i].events);
          }
        }
      }
      assert TransactionValues(ts) == old(TransactionValues(ts));
    } else {
      assert ts[k].Value().createdAt == Some(b.createdAt.Value());
      assert old(ts[k].Value().createdAt) == Some(old(b.createdAt.Value()));
    }
  }
}
