/**
 The message structs with no sub-messages as mutable objects: Timestamp, Header and
 ContractEvent. `Value` is the message an object currently holds; every method is proved
 against the encoding and the decoder of Messages.

 Methods Go calls on a nil receiver are static and take a nullable object.
 */
module LeafObjects {
  import opened Base
  import opened Bits
  import opened Varints
  import opened Wire
  import opened WireIO
  import M = Messages

  class Timestamp {
    var seconds: int64
    var nanos: int32
    var unknownFields: bytes

    ghost function Value(): M.Timestamp
      reads this
    {
      M.Timestamp(seconds, nanos, unknownFields)
    }

    constructor ()
      ensures Value() == M.NO_TIMESTAMP
    {
      seconds, nanos, unknownFields := 0, 0, [];
    }

    method SizeVT() returns (n: nat)
      requires |M.EncodeTimestamp(Value())| < TWO_63
      ensures n == |M.EncodeTimestamp(old(Value()))|
    {
      n := SizeOfOptVarint(ToUint64(seconds));
      n := n + SizeOfOptVarint(ToUint64(nanos));
      n := n + |unknownFields|;
    }

    method MarshalToSizedBufferVT(dAtA: array<byte>, end: nat) returns (size: nat)
      requires |M.EncodeTimestamp(Value())| <= end <= dAtA.Length < TWO_63
      modifies dAtA
      ensures size == |M.EncodeTimestamp(old(Value()))|
      ensures dAtA[end - size..] == M.EncodeTimestamp(old(Value())) + old(dAtA[end..])
      ensures dAtA[..end - size] == old(dAtA[..end - size])
    {
      hide OptVarint;
      var i := end - |unknownFields|;
      ghost var tail, base := dAtA[end..], dAtA[..];
      CopyAt(dAtA, i, unknownFields);
      ghost var done := unknownFields;
      i := WriteOptVarint(dAtA, i, 0x10, ToUint64(nanos), done, tail, base);
      done := OptVarint(0x10, ToUint64(nanos)) + done;
      i := WriteOptVarint(dAtA, i, 0x08, ToUint64(seconds), done, tail, base);
      size := end - i;
    }

    method MarshalVT() returns (dAtA: array<byte>)
      requires |M.EncodeTimestamp(Value())| < TWO_63
      ensures fresh(dAtA) && dAtA[..] == M.EncodeTimestamp(old(Value()))
    {
      var size := SizeVT();
      dAtA := new byte[size];
      var n := MarshalToSizedBufferVT(dAtA, size);
      assert dAtA[size - n..] == dAtA[..] && dAtA[size..] == [];
    }

    method UnmarshalVT(dAtA: bytes) returns (err: Error)
      requires |dAtA| < TWO_63
      modifies this
      ensures err == NoError <==> Decode(M.TimestampSchema, old(Value()), dAtA).Some?
      ensures err == NoError ==> Value() == Decode(M.TimestampSchema, old(Value()), dAtA).value
    {
      hide ReadVarint, Skip, Decode, Low;
      err := NoError;
      var iNdEx := 0;
      assert dAtA[0..] == dAtA;
      while iNdEx < |dAtA|
        invariant 0 <= iNdEx <= |dAtA| && err == NoError
        invariant Decode(M.TimestampSchema, old(Value()), dAtA) == Decode(M.TimestampSchema, Value(), dAtA[iNdEx..])
      {
        ghost var was := Value();
        var fieldNum, wireType, next, v;
        err, fieldNum, wireType, next := ReadTag(dAtA, iNdEx);
        if err != NoError {
          TagFails(M.TimestampSchema, was, dAtA, iNdEx);
          return;
        }
        if fieldNum == 1 {
          ScalarStep(M.TimestampSchema, was, dAtA, iNdEx, next, fieldNum, wireType);
          err, v, iNdEx := ReadScalar(dAtA, next, wireType, TWO_64);
          if err != NoError { return; }
          LowOfUint64(ReadVarint(dAtA[next..]).value.0);
          seconds := ToInt64(v);
        } else if fieldNum == 2 {
          ScalarStep(M.TimestampSchema, was, dAtA, iNdEx, next, fieldNum, wireType);
          err, v, iNdEx := ReadScalar(dAtA, next, wireType, TWO_32);
          if err != NoError { return; }
          LowOfUint64(ReadVarint(dAtA[next..]).value.0);
          nanos := ToInt32(v);
        } else {
          UnknownStep(M.TimestampSchema, was, dAtA, iNdEx, next, fieldNum, wireType);
          var preIndex := iNdEx;
          err, iNdEx := SkipUnknown(dAtA, preIndex);
          if err != NoError { return; }
          unknownFields := unknownFields + dAtA[preIndex..iNdEx];
        }
      }
      DecodeEnd(M.TimestampSchema, Value(), dAtA[iNdEx..]);
    }

    static method EqualVT(m: Timestamp?, that: Timestamp?) returns (same: bool)
      ensures same <==> (m == null <==> that == null) && (m != null && that != null ==> m.Value() == that.Value())
    {
      if m == that {
        return true;
      }
      if m == null || that == null {
        return false;
      }
      same := m.seconds == that.seconds && m.nanos == that.nanos && m.unknownFields == that.unknownFields;
    }

    static method CloneVT(m: Timestamp?) returns (r: Timestamp?)
      ensures m == null <==> r == null
      ensures m != null ==> fresh(r) && r.Value() == old(m.Value())
    {
      if m == null {
        return null;
      }
      r := new Timestamp();
      r.seconds, r.nanos, r.unknownFields := m.seconds, m.nanos, m.unknownFields;
    }
  }

  class Header {
    var ledgerVersion: uint32
    var previousLedgerHash: bytes
    var totalCoins: int64
    var baseFee: uint32
    var baseReserve: uint32
    var unknownFields: bytes

    ghost function Value(): M.Header
      reads this
    {
      M.Header(ledgerVersion, previousLedgerHash, totalCoins, baseFee, baseReserve, unknownFields)
    }

    constructor ()
      ensures Value() == M.NO_HEADER
    {
      ledgerVersion, previousLedgerHash, totalCoins, baseFee, baseReserve, unknownFields := 0, [], 0, 0, 0, [];
    }

    method SizeVT() returns (n: nat)
      requires |M.EncodeHeader(Value())| < TWO_63
      ensures n == |M.EncodeHeader(old(Value()))|
    {
      n := SizeOfOptVarint(ledgerVersion);
      n := n + SizeOfOptBytes(previousLedgerHash);
      n := n + SizeOfOptVarint(ToUint64(totalCoins));
      n := n + SizeOfOptVarint(baseFee);
      n := n + SizeOfOptVarint(baseReserve);
      n := n + |unknownFields|;
    }

    method MarshalToSizedBufferVT(dAtA: array<byte>, end: nat) returns (size: nat)
      requires |M.EncodeHeader(Value())| <= end <= dAtA.Length < TWO_63
      modifies dAtA
      ensures size == |M.EncodeHeader(old(Value()))|
      ensures dAtA[end - size..] == M.EncodeHeader(old(Value())) + old(dAtA[end..])
      ensures dAtA[..end - size] == old(dAtA[..end - size])
    {
      hide OptVarint, OptBytes;
      var i := end - |unknownFields|;
      ghost var tail, base := dAtA[end..], dAtA[..];
      CopyAt(dAtA, i, unknownFields);
      ghost var done := unknownFields;
      i := WriteOptVarint(dAtA, i, 0x28, baseReserve, done, tail, base);
      done := OptVarint(0x28, baseReserve) + done;
      i := WriteOptVarint(dAtA, i, 0x20, baseFee, done, tail, base);
      done := OptVarint(0x20, baseFee) + done;
      i := WriteOptVarint(dAtA, i, 0x18, ToUint64(totalCoins), done, tail, base);
      done := OptVarint(0x18, ToUint64(totalCoins)) + done;
      i := WriteOptBytes(dAtA, i, 0x12, previousLedgerHash, done, tail, base);
      done := OptBytes(0x12, previousLedgerHash) + done;
      i := WriteOptVarint(dAtA, i, 0x08, ledgerVersion, done, tail, base);
      size := end - i;
    }

    method MarshalVT() returns (dAtA: array<byte>)
      requires |M.EncodeHeader(Value())| < TWO_63
      ensures fresh(dAtA) && dAtA[..] == M.EncodeHeader(old(Value()))
    {
      var size := SizeVT();
      dAtA := new byte[size];
      var n := MarshalToSizedBufferVT(dAtA, size);
      assert dAtA[size - n..] == dAtA[..] && dAtA[size..] == [];
    }

    method UnmarshalVT(dAtA: bytes) returns (err: Error)
      requires |dAtA| < TWO_63
      modifies this
      ensures err == NoError <==> Decode(M.HeaderSchema, old(Value()), dAtA).Some?
      ensures err == NoError ==> Value() == Decode(M.HeaderSchema, old(Value()), dAtA).value
    {
      hide ReadVarint, ReadLength, Skip, Decode, Low;
      err := NoError;
      var iNdEx := 0;
      assert dAtA[0..] == dAtA;
      while iNdEx < |dAtA|
        invariant 0 <= iNdEx <= |dAtA| && err == NoError
        invariant Decode(M.HeaderSchema, old(Value()), dAtA) == Decode(M.HeaderSchema, Value(), dAtA[iNdEx..])
      {
        ghost var was := Value();
        var fieldNum, wireType, next, v, lo, hi;
        err, fieldNum, wireType, next := ReadTag(dAtA, iNdEx);
        if err != NoError {
          TagFails(M.HeaderSchema, was, dAtA, iNdEx);
          return;
        }
        if fieldNum == 1 {
          ScalarStep(M.HeaderSchema, was, dAtA, iNdEx, next, fieldNum, wireType);
          err, v, iNdEx := ReadScalar(dAtA, next, wireType, TWO_32);
          if err != NoError { return; }
          LowOfUint64(ReadVarint(dAtA[next..]).value.0);
          ledgerVersion := v;
        } else if fieldNum == 2 {
          SliceStep(M.HeaderSchema, was, dAtA, iNdEx, next, fieldNum, wireType);
          err, lo, hi := ReadSlice(dAtA, next, wireType);
          if err != NoError { return; }
          previousLedgerHash := dAtA[lo..hi];
          iNdEx := hi;
        } else if fieldNum == 3 {
          ScalarStep(M.HeaderSchema, was, dAtA, iNdEx, next, fieldNum, wireType);
          err, v, iNdEx := ReadScalar(dAtA, next, wireType, TWO_64);
          if err != NoError { return; }
          LowOfUint64(ReadVarint(dAtA[next..]).value.0);
          totalCoins := ToInt64(v);
        } else if fieldNum == 4 {
          ScalarStep(M.HeaderSchema, was, dAtA, iNdEx, next, fieldNum, wireType);
          err, v, iNdEx := ReadScalar(dAtA, next, wireType, TWO_32);
          if err != NoError { return; }
          LowOfUint64(ReadVarint(dAtA[next..]).value.0);
          baseFee := v;
        } else if fieldNum == 5 {
          ScalarStep(M.HeaderSchema, was, dAtA, iNdEx, next, fieldNum, wireType);
          err, v, iNdEx := ReadScalar(dAtA, next, wireType, TWO_32);
          if err != NoError { return; }
          LowOfUint64(ReadVarint(dAtA[next..]).value.0);
          baseReserve := v;
        } else {
          UnknownStep(M.HeaderSchema, was, dAtA, iNdEx, next, fieldNum, wireType);
          var preIndex := iNdEx;
          err, iNdEx := SkipUnknown(dAtA, preIndex);
          if err != NoError { return; }
          unknownFields := unknownFields + dAtA[preIndex..iNdEx];
        }
      }
      DecodeEnd(M.HeaderSchema, Value(), dAtA[iNdEx..]);
    }

    static method EqualVT(m: Header?, that: Header?) returns (same: bool)
      ensures same <==> (m == null <==> that == null) && (m != null && that != null ==> m.Value() == that.Value())
    {
      if m == that {
        return true;
      }
      if m == null || that == null {
        return false;
      }
      if m.ledgerVersion != that.ledgerVersion {
        return false;
      }
      if m.previousLedgerHash != that.previousLedgerHash {
        return false;
      }
      if m.totalCoins != that.totalCoins {
        return false;
      }
      if m.baseFee != that.baseFee {
        return false;
      }
      if m.baseReserve != that.baseReserve {
        return false;
      }
      return m.unknownFields == that.unknownFields;
    }

    static method CloneVT(m: Header?) returns (r: Header?)
      ensures m == null <==> r == null
      ensures m != null ==> fresh(r) && r.Value() == old(m.Value())
    {
      if m == null {
        return null;
      }
      r := new Header();
      r.ledgerVersion, r.totalCoins := m.ledgerVersion, m.totalCoins;
      r.baseFee, r.baseReserve := m.baseFee, m.baseReserve;
      r.previousLedgerHash, r.unknownFields := m.previousLedgerHash, m.unknownFields;
    }
  }

  class ContractEvent {
    var events: seq<bytes>
    var unknownFields: bytes

    ghost function Value(): M.ContractEvent
      reads this
    {
      M.ContractEvent(events, unknownFields)
    }

    /** What an element of a repeated field stands for: nil is an empty message. */
    static ghost function Of(m: ContractEvent?): M.ContractEvent
      reads m
    {
      if m == null then M.NO_CONTRACT_EVENT else m.Value()
    }

    constructor ()
      ensures Value() == M.NO_CONTRACT_EVENT
    {
      events, unknownFields := [], [];
    }

    static method SizeVT(m: ContractEvent?) returns (n: nat)
      requires |M.EncodeContractEvent(Of(m))| < TWO_63
      ensures n == |M.EncodeContractEvent(old(Of(m)))|
    {
      if m == null {
        return 0;
      }
      n := SizeOfRepeatedBytes(0x0a, m.events);
      n := n + |m.unknownFields|;
    }

    static method MarshalToSizedBufferVT(m: ContractEvent?, dAtA: array<byte>, end: nat) returns (size: nat)
      requires |M.EncodeContractEvent(Of(m))| <= end <= dAtA.Length < TWO_63
      modifies dAtA
      ensures size == |M.EncodeContractEvent(old(Of(m)))|
      ensures dAtA[end - size..] == M.EncodeContractEvent(old(Of(m))) + old(dAtA[end..])
      ensures dAtA[..end - size] == old(dAtA[..end - size])
    {
      if m == null {
        assert dAtA[end..] == [] + dAtA[end..];
        return 0;
      }
      hide RepeatedBytes;
      var i := end - |m.unknownFields|;
      ghost var tail, base := dAtA[end..], dAtA[..];
      CopyAt(dAtA, i, m.unknownFields);
      i := WriteRepeatedBytes(dAtA, i, 0x0a, m.events, m.unknownFields, tail, base);
      size := end - i;
    }

    method MarshalVT() returns (dAtA: array<byte>)
      requires |M.EncodeContractEvent(Value())| < TWO_63
      ensures fresh(dAtA) && dAtA[..] == M.EncodeContractEvent(old(Value()))
    {
      var size := SizeVT(this);
      dAtA := new byte[size];
      var n := MarshalToSizedBufferVT(this, dAtA, size);
      assert dAtA[size - n..] == dAtA[..] && dAtA[size..] == [];
    }

    method UnmarshalVT(dAtA: bytes) returns (err: Error)
      requires |dAtA| < TWO_63
      modifies this
      ensures err == NoError <==> Decode(M.ContractEventSchema, old(Value()), dAtA).Some?
      ensures err == NoError ==> Value() == Decode(M.ContractEventSchema, old(Value()), dAtA).value
    {
      hide ReadVarint, ReadLength, Skip, Decode, Low;
      err := NoError;
      var iNdEx := 0;
      assert dAtA[0..] == dAtA;
      while iNdEx < |dAtA|
        invariant 0 <= iNdEx <= |dAtA| && err == NoError
        invariant Decode(M.ContractEventSchema, old(Value()), dAtA)
               == Decode(M.ContractEventSchema, Value(), dAtA[iNdEx..])
      {
        ghost var was := Value();
        var fieldNum, wireType, next, lo, hi;
        err, fieldNum, wireType, next := ReadTag(dAtA, iNdEx);
        if err != NoError {
          TagFails(M.ContractEventSchema, was, dAtA, iNdEx);
          return;
        }
        if fieldNum == 1 {
          SliceStep(M.ContractEventSchema, was, dAtA, iNdEx, next, fieldNum, wireType);
          err, lo, hi := ReadSlice(dAtA, next, wireType);
          if err != NoError { return; }
          events := events + [dAtA[lo..hi]];
          iNdEx := hi;
        } else {
          UnknownStep(M.ContractEventSchema, was, dAtA, iNdEx, next, fieldNum, wireType);
          var preIndex := iNdEx;
          err, iNdEx := SkipUnknown(dAtA, preIndex);
          if err != NoError { return; }
          unknownFields := unknownFields + dAtA[preIndex..iNdEx];
        }
      }
      DecodeEnd(M.ContractEventSchema, Value(), dAtA[iNdEx..]);
    }

    static method EqualVT(m: ContractEvent?, that: ContractEvent?) returns (same: bool)
      ensures same <==> (m == null <==> that == null) && (m != null && that != null ==> m.Value() == that.Value())
    {
      if m == that {
        return true;
      }
      if m == null || that == null {
        return false;
      }
      same := EqualBytesLists(m.events, that.events);
      if !same {
        return false;
      }
      return m.unknownFields == that.unknownFields;
    }

    static method CloneVT(m: ContractEvent?) returns (r: ContractEvent?)
      ensures m == null <==> r == null
      ensures m != null ==> fresh(r) && r.Value() == old(m.Value())
    {
      if m == null {
        return null;
      }
      r := new ContractEvent();
      r.events, r.unknownFields := m.events, m.unknownFields;
    }
  }

  /** The element loop every repeated bytes field is compared with. */
  method EqualBytesLists(xs: seq<bytes>, ys: seq<bytes>) returns (same: bool)
    ensures same <==> xs == ys
  {
    if |xs| != |ys| {
      return false;
    }
    for i := 0 to |xs|
      invariant xs[..i] == ys[..i]
    {
      if xs[i] != ys[i] {
        return false;
      }
    }
    return true;
  }
}
