/** A transaction as a mutable object, with its optional timestamp and events. */
module TransactionObject {
  import opened Base
  import opened Bits
  import opened Varints
  import opened Wire
  import opened WireIO
  import opened LeafObjects
  import opened EventsObject
  import M = Messages

  ghost function EventsReach(e: Events?): set<object>
    reads e
  {
    if e == null then {} else e.Reach()
  }

  class Transaction {
    var hash: bytes
    var status: int32
    var createdAt: Timestamp?
    var applicationOrder: uint64
    var envelopeXdr: bytes
    var resultXdr: bytes
    var events: Events?
    var unknownFields: bytes

    ghost function Reach(): set<object>
      reads this, events
    {
      {this} + (if createdAt == null then {} else {createdAt}) + EventsReach(events)
    }

    ghost function Value(): M.Transaction
      reads this, createdAt, events, if events == null then {} else NonNilContracts(events.contractEventsXdr)
    {
      M.Transaction(hash, status, if createdAt == null then None else Some(createdAt.Value()), applicationOrder,
                    envelopeXdr, resultXdr, if events == null then None else Some(events.Value()), unknownFields)
    }

    /** What an element of a repeated field stands for: nil is an empty message. */
    static ghost function Of(m: Transaction?): M.Transaction
      reads m, if m == null then {} else {m.createdAt, m.events}
      reads if m == null || m.events == null then {} else NonNilContracts(m.events.contractEventsXdr)
    {
      if m == null then M.NO_TRANSACTION else m.Value()
    }

    constructor ()
      ensures Value() == M.NO_TRANSACTION && createdAt == null && events == null
    {
      hash, status, createdAt, applicationOrder := [], 0, null, 0;
      envelopeXdr, resultXdr, events, unknownFields := [], [], null, [];
    }

    constructor Make(hash: bytes, status: int32, createdAt: Timestamp?, applicationOrder: uint64,
        envelopeXdr: bytes, resultXdr: bytes, events: Events?, unknownFields: bytes)
      ensures this.createdAt == createdAt && this.events == events
      ensures Value() == M.Transaction(
        hash, status, if createdAt == null then None else Some(createdAt.Value()), applicationOrder,
        envelopeXdr, resultXdr, if events == null then None else Some(events.Value()), unknownFields)
    {
      this.hash, this.status, this.createdAt, this.applicationOrder := hash, status, createdAt, applicationOrder;
      this.envelopeXdr, this.resultXdr := envelopeXdr, resultXdr;
      this.events, this.unknownFields := events, unknownFields;
    }

    static method SizeVT(m: Transaction?) returns (n: nat)
      requires |M.EncodeTransaction(Of(m))| < TWO_63
      ensures n == |M.EncodeTransaction(old(Of(m)))|
    {
      if m == null {
        return 0;
      }
      hide OptVarint, OptBytes, BytesRecord, M.EncodeTimestamp, M.EncodeEvents;
      ghost var v := m.Value();
      n := SizeOfOptBytes(m.hash);
      n := n + SizeOfOptVarint(ToUint64(m.status));
      var l := SizeOfOptTimestamp(m.createdAt, 0x1a, v.createdAt);
      n := n + l;
      n := n + SizeOfOptVarint(m.applicationOrder);
      n := n + SizeOfOptBytes(m.envelopeXdr);
      n := n + SizeOfOptBytes(m.resultXdr);
      SameTransaction(m);
      l := SizeOfOptEvents(m.events, v.events);
      n := n + l;
      n := n + |m.unknownFields|;
    }

    static method MarshalToSizedBufferVT(m: Transaction?, dAtA: array<byte>, end: nat) returns (size: nat)
      requires |M.EncodeTransaction(Of(m))| <= end <= dAtA.Length < TWO_63
      modifies dAtA
      ensures size == |M.EncodeTransaction(old(Of(m)))|
      ensures dAtA[end - size..] == M.EncodeTransaction(old(Of(m))) + old(dAtA[end..])
      ensures dAtA[..end - size] == old(dAtA[..end - size])
    {
      if m == null {
        assert dAtA[end..] == [] + dAtA[end..];
        return 0;
      }
      size := m.MarshalFields(dAtA, end);
    }

    method MarshalFields(dAtA: array<byte>, end: nat) returns (size: nat)
      requires |M.EncodeTransaction(Value())| <= end <= dAtA.Length < TWO_63
      modifies dAtA
      ensures size == |M.EncodeTransaction(old(Value()))|
      ensures dAtA[end - size..] == M.EncodeTransaction(old(Value())) + old(dAtA[end..])
      ensures dAtA[..end - size] == old(dAtA[..end - size])
    {
      hide OptVarint, OptBytes, M.EncodeOptTimestamp, M.EncodeOptEvents;
      ghost var v := Value();
      ghost var tail, base := dAtA[end..], dAtA[..];
      var hash, status, createdAt, applicationOrder := hash, status, createdAt, applicationOrder;
      var i := MarshalTail(dAtA, end);
      ghost var done :=
        OptBytes(0x32, v.envelopeXdr) + (OptBytes(0x42, v.resultXdr)
                          + (M.EncodeOptEvents(v.events) + v.unknown));
      i := WriteOptVarint(dAtA, i, 0x28, applicationOrder, done, tail, base);
      done := OptVarint(0x28, applicationOrder) + done;
      i := MarshalOptTimestamp(createdAt, dAtA, i, 0x1a, v.createdAt, done, tail, base);
      done := M.EncodeOptTimestamp(0x1a, v.createdAt) + done;
      i := WriteOptVarint(dAtA, i, 0x10, ToUint64(status), done, tail, base);
      done := OptVarint(0x10, ToUint64(status)) + done;
      i := WriteOptBytes(dAtA, i, 0x0a, hash, done, tail, base);
      size := end - i;
    }

    /** The first half of the backward pass: unknown bytes, events, result and envelope. */
    method MarshalTail(dAtA: array<byte>, end: nat) returns (i: nat)
      requires |OptBytes(0x32, envelopeXdr) + (OptBytes(0x42, resultXdr)
                  + (M.EncodeOptEvents(Value().events) + unknownFields))| <= end <= dAtA.Length < TWO_63
      modifies dAtA
      ensures var v := old(Value());
        var done := OptBytes(0x32, v.envelopeXdr)
          + (OptBytes(0x42, v.resultXdr) + (M.EncodeOptEvents(v.events) + v.unknown));
        i == end - |done| && dAtA[i..] == done + old(dAtA[end..])
      ensures dAtA[..i] == old(dAtA[..i])
    {
      hide OptVarint, OptBytes, M.EncodeOptTimestamp, M.EncodeOptEvents;
      ghost var v := Value();
      var e, u, env, res := events, unknownFields, envelopeXdr, resultXdr;
      ghost var tail, base := dAtA[end..], dAtA[..];
      i := end - |u|;
      CopyAt(dAtA, i, u);
      if e != null { SameEvents(e); }
      i := MarshalOptEvents(e, dAtA, i, v.events, u, tail, base);
      ghost var done := M.EncodeOptEvents(v.events) + u;
      i := WriteOptBytes(dAtA, i, 0x42, res, done, tail, base);
      done := OptBytes(0x42, res) + done;
      i := WriteOptBytes(dAtA, i, 0x32, env, done, tail, base);
    }

    method MarshalVT() returns (dAtA: array<byte>)
      requires |M.EncodeTransaction(Value())| < TWO_63
      ensures fresh(dAtA) && dAtA[..] == M.EncodeTransaction(old(Value()))
    {
      ghost var v := Value();
      var size := SizeVT(this);
      SameTransaction(this);
      dAtA := new byte[size];
      SameTransaction(this);
      var n := MarshalToSizedBufferVT(this, dAtA, size);
      assert dAtA[size - n..] == dAtA[..] && dAtA[size..] == [];
    }

    /** Merges into the timestamp already there, or into a new one. */
    method UnmarshalCreatedAt(dAtA: bytes) returns (err: Error)
      requires |dAtA| < TWO_63
      modifies this`createdAt, createdAt
      ensures createdAt == old(createdAt) || fresh(createdAt)
      ensures var t := Decode(M.TimestampSchema, M.OrElse(old(Value()).createdAt, M.NO_TIMESTAMP), dAtA);
        (err == NoError <==> t.Some?) && (err == NoError ==> Value() == old(Value()).(createdAt := t))
    {
      hide Decode;
      ghost var was := Value();
      if createdAt == null {
        createdAt := new Timestamp();
      }
      err := createdAt.UnmarshalVT(dAtA);
      if events != null {
        SameEvents(events);
      }
    }

    /** Merges into the events already there, or into new ones. */
    method UnmarshalEvents(dAtA: bytes) returns (err: Error)
      requires |dAtA| < TWO_63
      modifies this`events, events
      ensures events == old(events) || fresh(events)
      ensures var e := Decode(M.EventsSchema, M.OrElse(old(Value()).events, M.NO_EVENTS), dAtA);
        (err == NoError <==> e.Some?) && (err == NoError ==> Value() == old(Value()).(events := e))
    {
      hide Decode;
      if events == null {
        events := new Events();
      }
      err := events.UnmarshalVT(dAtA);
    }

    /** Assigning the object's own fields leaves its sub-messages alone. */
    twostate lemma SubMessagesKept()
      requires createdAt == old(createdAt) && events == old(events)
      requires createdAt != null ==> unchanged(createdAt)
      requires events != null ==>
        unchanged(events) && forall c :: c in NonNilContracts(events.contractEventsXdr) ==> unchanged(c)
      ensures Value().createdAt == old(Value()).createdAt && Value().events == old(Value()).events
    {
      if events != null {
        SameEvents(events);
      }
    }

    /** The cases of the varint fields. */
    method MergeScalarField(dAtA: bytes, iNdEx: nat, next: nat, fieldNum: int, wireType: int) returns (err: Error,
        end: nat)
      requires |dAtA| < TWO_63 && TagAt(dAtA, iNdEx, next, fieldNum, wireType) && (fieldNum == 2 || fieldNum == 5)
      modifies this`status, this`applicationOrder
      ensures (createdAt == old(createdAt) || fresh(createdAt)) && (events == old(events) || fresh(events))
      ensures err != NoError ==> Decode(M.TransactionSchema, old(Value()), dAtA[iNdEx..]) == None
      ensures err == NoError ==> iNdEx < end <= |dAtA|
      ensures err == NoError ==>
        Decode(M.TransactionSchema, old(Value()), dAtA[iNdEx..]) == Decode(M.TransactionSchema, Value(), dAtA[end..])
    {
      hide ReadVarint, ReadLength, Decode, Low;
      var v;
      end := next;
      ScalarStep(M.TransactionSchema, Value(), dAtA, iNdEx, next, fieldNum, wireType);
      if fieldNum == 2 {
        err, v, end := ReadScalar(dAtA, next, wireType, TWO_32);
        if err != NoError { return; }
        LowOfUint64(ReadVarint(dAtA[next..]).value.0);
        status := ToInt32(v);
      } else {
        err, v, end := ReadScalar(dAtA, next, wireType, TWO_64);
        if err != NoError { return; }
        LowOfUint64(ReadVarint(dAtA[next..]).value.0);
        applicationOrder := v;
      }
      SubMessagesKept();
    }

    /** The cases of the byte strings. */
    method MergeBytesField(dAtA: bytes, iNdEx: nat, next: nat, fieldNum: int, wireType: int) returns (err: Error,
        end: nat)
      requires |dAtA| < TWO_63 && TagAt(dAtA, iNdEx, next, fieldNum, wireType)
      requires fieldNum == 1 || fieldNum == 6 || fieldNum == 8
      modifies this`hash, this`envelopeXdr, this`resultXdr
      ensures (createdAt == old(createdAt) || fresh(createdAt)) && (events == old(events) || fresh(events))
      ensures err != NoError ==> Decode(M.TransactionSchema, old(Value()), dAtA[iNdEx..]) == None
      ensures err == NoError ==> iNdEx < end <= |dAtA|
      ensures err == NoError ==>
        Decode(M.TransactionSchema, old(Value()), dAtA[iNdEx..]) == Decode(M.TransactionSchema, Value(), dAtA[end..])
    {
      hide ReadVarint, ReadLength, Decode, Low;
      var lo, hi;
      end := next;
      SliceStep(M.TransactionSchema, Value(), dAtA, iNdEx, next, fieldNum, wireType);
      err, lo, hi := ReadSlice(dAtA, next, wireType);
      if err != NoError { return; }
      end := hi;
      SameTransaction(this);
      if fieldNum == 1 {
        hash := dAtA[lo..hi];
      } else if fieldNum == 6 {
        envelopeXdr := dAtA[lo..hi];
      } else {
        resultXdr := dAtA[lo..hi];
      }
      SubMessagesKept();
    }

    /** The cases of the sub-messages. */
    method MergeMessageField(dAtA: bytes, iNdEx: nat, next: nat, fieldNum: int, wireType: int) returns (err: Error,
        end: nat)
      requires |dAtA| < TWO_63 && TagAt(dAtA, iNdEx, next, fieldNum, wireType) && (fieldNum == 3 || fieldNum == 9)
      modifies this`createdAt, this`events, createdAt, events
      ensures (createdAt == old(createdAt) || fresh(createdAt)) && (events == old(events) || fresh(events))
      ensures err != NoError ==> Decode(M.TransactionSchema, old(Value()), dAtA[iNdEx..]) == None
      ensures err == NoError ==> iNdEx < end <= |dAtA|
      ensures err == NoError ==>
        Decode(M.TransactionSchema, old(Value()), dAtA[iNdEx..]) == Decode(M.TransactionSchema, Value(), dAtA[end..])
    {
      hide ReadVarint, ReadLength, Decode, Low;
      var lo, hi;
      end := next;
      SliceStep(M.TransactionSchema, Value(), dAtA, iNdEx, next, fieldNum, wireType);
      err, lo, hi := ReadSlice(dAtA, next, wireType);
      if err != NoError { return; }
      end := hi;
      SameTransaction(this);
      if fieldNum == 3 {
        err := UnmarshalCreatedAt(dAtA[lo..hi]);
      } else {
        err := UnmarshalEvents(dAtA[lo..hi]);
      }
    }

    /** One turn of the decoding loop: reads the field at `iNdEx` and merges it in. */
    method MergeField(dAtA: bytes, iNdEx: nat) returns (err: Error, end: nat)
      requires iNdEx < |dAtA| < TWO_63
      modifies this, createdAt, events
      ensures (createdAt == old(createdAt) || fresh(createdAt)) && (events == old(events) || fresh(events))
      ensures err != NoError ==> Decode(M.TransactionSchema, old(Value()), dAtA[iNdEx..]) == None
      ensures err == NoError ==> iNdEx < end <= |dAtA|
      ensures err == NoError ==>
        Decode(M.TransactionSchema, old(Value()), dAtA[iNdEx..]) == Decode(M.TransactionSchema, Value(), dAtA[end..])
    {
      hide ReadVarint, Skip, Decode;
      end := iNdEx;
      var fieldNum, wireType, next;
      err, fieldNum, wireType, next := ReadTag(dAtA, iNdEx);
      if err != NoError {
        TagFails(M.TransactionSchema, old(Value()), dAtA, iNdEx);
        return;
      }
      SameTransaction(this);
      if fieldNum == 2 || fieldNum == 5 {
        err, end := MergeScalarField(dAtA, iNdEx, next, fieldNum, wireType);
      } else if fieldNum == 1 || fieldNum == 6 || fieldNum == 8 {
        err, end := MergeBytesField(dAtA, iNdEx, next, fieldNum, wireType);
      } else if fieldNum == 3 || fieldNum == 9 {
        err, end := MergeMessageField(dAtA, iNdEx, next, fieldNum, wireType);
      } else {
        UnknownStep(M.TransactionSchema, old(Value()), dAtA, iNdEx, next, fieldNum, wireType);
        err, end := SkipUnknown(dAtA, iNdEx);
        if err != NoError { return; }
        unknownFields := unknownFields + dAtA[iNdEx..end];
        SubMessagesKept();
      }
    }

    method UnmarshalVT(dAtA: bytes) returns (err: Error)
      requires |dAtA| < TWO_63
      modifies this, createdAt, events
      ensures (createdAt == old(createdAt) || fresh(createdAt)) && (events == old(events) || fresh(events))
      ensures err == NoError <==> Decode(M.TransactionSchema, old(Value()), dAtA).Some?
      ensures err == NoError ==> Value() == Decode(M.TransactionSchema, old(Value()), dAtA).value
    {
      hide Decode;
      err := NoError;
      var iNdEx := 0;
      assert dAtA[0..] == dAtA;
      while iNdEx < |dAtA|
        invariant 0 <= iNdEx <= |dAtA| && err == NoError
        invariant (createdAt == old(createdAt) || fresh(createdAt)) && (events == old(events) || fresh(events))
        invariant Decode(M.TransactionSchema, old(Value()), dAtA) == Decode(M.TransactionSchema, Value(), dAtA[iNdEx..])
      {
        err, iNdEx := MergeField(dAtA, iNdEx);
        if err != NoError { return; }
      }
      DecodeEnd(M.TransactionSchema, Value(), dAtA[iNdEx..]);
    }

    static method EqualVT(m: Transaction?, that: Transaction?) returns (same: bool)
      ensures same <==> (m == null <==> that == null) && (m != null && that != null ==> m.Value() == that.Value())
    {
      if m == that {
        return true;
      }
      if m == null || that == null {
        return false;
      }
      if m.hash != that.hash {
        return false;
      }
      if m.status != that.status {
        return false;
      }
      same := Timestamp.EqualVT(m.createdAt, that.createdAt);
      if !same { return; }
      if m.applicationOrder != that.applicationOrder {
        return false;
      }
      if m.envelopeXdr != that.envelopeXdr {
        return false;
      }
      if m.resultXdr != that.resultXdr {
        return false;
      }
      same := Events.EqualVT(m.events, that.events);
      if !same { return; }
      return m.unknownFields == that.unknownFields;
    }

    static method CloneVT(m: Transaction?) returns (r: Transaction?)
      ensures m == null <==> r == null
      ensures m != null ==> fresh(r.Reach()) && r.Value() == old(m.Value())
    {
      if m == null {
        return null;
      }
      var t := Timestamp.CloneVT(m.createdAt);
      if m.events != null { SameEvents(m.events); }
      var e := Events.CloneVT(m.events);
      r := new Transaction.Make(
        m.hash, m.status, t, m.applicationOrder, m.envelopeXdr, m.resultXdr, e, m.unknownFields);
    }
  }

  /** Nobody wrote to the transaction or to what it points to. */
  twostate predicate Untouched(m: Transaction)
    reads m, m.createdAt, m.events
    reads if m.events == null then {} else NonNilContracts(m.events.contractEventsXdr)
  {
    && unchanged(m)
    && (m.createdAt != null ==> unchanged(m.createdAt))
    && (m.events != null ==>
          unchanged(m.events) && forall c :: c in NonNilContracts(m.events.contractEventsXdr) ==> unchanged(c))
  }

  twostate lemma SameTransaction(m: Transaction)
    requires Untouched(m)
    ensures m.Value() == old(m.Value())
  {
    if m.events != null {
      SameEvents(m.events);
    }
  }

  method SizeOfOptTimestamp(t: Timestamp?, tag: byte, ghost v: Option<M.Timestamp>) returns (n: nat)
    requires v == (if t == null then None else Some(t.Value())) && |M.EncodeOptTimestamp(tag, v)| < TWO_63
    ensures n == |M.EncodeOptTimestamp(tag, v)|
  {
    hide BytesRecord, M.EncodeTimestamp;
    n := 0;
    if t != null {
      var l := t.SizeVT();
      n := SizeOfRecord(l);
    }
  }

  method SizeOfOptEvents(e: Events?, ghost v: Option<M.Events>) returns (n: nat)
    requires v == (if e == null then None else Some(e.Value())) && |M.EncodeOptEvents(v)| < TWO_63
    ensures n == |M.EncodeOptEvents(v)|
  {
    hide BytesRecord, M.EncodeEvents;
    n := 0;
    if e != null {
      var l := e.SizeVT();
      n := SizeOfRecord(l);
    }
  }

  /** The block that writes a sub-message when it is not nil. */
  method MarshalOptTimestamp(t: Timestamp?, dAtA: array<byte>, i: nat, tag: byte, ghost v: Option<M.Timestamp>,
      ghost done: bytes, ghost tail: bytes, ghost base: bytes)
    returns (start: nat)
    requires v == (if t == null then None else Some(t.Value()))
    requires |M.EncodeOptTimestamp(tag, v)| <= i <= dAtA.Length < TWO_63
    requires dAtA[i..] == done + tail && i <= |base| && dAtA[..i] == base[..i]
    modifies dAtA
    ensures start == i - |M.EncodeOptTimestamp(tag, v)|
    ensures dAtA[start..] == (M.EncodeOptTimestamp(tag, v) + done) + tail
    ensures dAtA[..start] == base[..start]
  {
    hide BytesRecord, M.EncodeTimestamp;
    start := i;
    if t != null {
      var size := t.MarshalToSizedBufferVT(dAtA, start);
      start := start - size;
      assert dAtA[..start] == base[..i][..start];
      start := WriteMessageHead(dAtA, start, tag, size, M.EncodeTimestamp(v.value), done, tail, base);
    } else {
      assert [] + done == done;
    }
  }

  method MarshalOptEvents(e: Events?, dAtA: array<byte>, i: nat, ghost v: Option<M.Events>,
      ghost done: bytes, ghost tail: bytes, ghost base: bytes)
    returns (start: nat)
    requires v == (if e == null then None else Some(e.Value())) && |M.EncodeOptEvents(v)| <= i <= dAtA.Length < TWO_63
    requires dAtA[i..] == done + tail && i <= |base| && dAtA[..i] == base[..i]
    modifies dAtA
    ensures start == i - |M.EncodeOptEvents(v)|
    ensures dAtA[start..] == (M.EncodeOptEvents(v) + done) + tail
    ensures dAtA[..start] == base[..start]
  {
    hide BytesRecord, M.EncodeEvents;
    start := i;
    if e != null {
      var size := e.MarshalToSizedBufferVT(dAtA, start);
      start := start - size;
      assert dAtA[..start] == base[..i][..start];
      start := WriteMessageHead(dAtA, start, 0x4a, size, M.EncodeEvents(v.value), done, tail, base);
    } else {
      assert [] + done == done;
    }
  }
}
