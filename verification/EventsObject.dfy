/**
 The message struct Events as a mutable object. Its contract events are objects of their own;
 unmarshalling appends fresh ones, so what it may change is the object itself.
 */
module EventsObject {
  import opened Base
  import opened Bits
  import opened Varints
  import opened Wire
  import opened WireIO
  import opened LeafObjects
  import M = Messages

  ghost function NonNilContracts(cs: seq<ContractEvent?>): set<ContractEvent> {
    set c: ContractEvent | c in cs
  }

  ghost function ContractValues(cs: seq<ContractEvent?>): (vs: seq<M.ContractEvent>)
    reads NonNilContracts(cs)
    ensures |vs| == |cs| && forall i :: 0 <= i < |cs| ==> vs[i] == ContractEvent.Of(cs[i])
  {
    seq(|cs|, i requires 0 <= i < |cs| reads NonNilContracts(cs) => ContractEvent.Of(cs[i]))
  }

  lemma NoContractEvents()
    ensures M.RepeatedContractEvents([]) == []
  {
  }

  lemma RepeatedContractEventsAt(cs: seq<M.ContractEvent>, k: nat)
    requires k < |cs|
    ensures M.RepeatedContractEvents(cs[k..])
         == BytesRecord(0x1a, M.EncodeContractEvent(cs[k])) + M.RepeatedContractEvents(cs[k + 1..])
    ensures |M.RepeatedContractEvents(cs[k..])| <= |M.RepeatedContractEvents(cs)|
  {
    hide BytesRecord, M.EncodeContractEvent;
    assert cs[k..][0] == cs[k] && cs[k..][1..] == cs[k + 1..];
    RepeatedContractEventsSuffix(cs, k);
  }

  lemma {:induction false} RepeatedContractEventsSuffix(cs: seq<M.ContractEvent>, k: nat)
    requires k <= |cs|
    ensures |M.RepeatedContractEvents(cs[k..])| <= |M.RepeatedContractEvents(cs)|
    decreases k
  {
    if k > 0 {
      assert cs[k..] == cs[1..][k - 1..];
      RepeatedContractEventsSuffix(cs[1..], k - 1);
    } else {
      assert cs[0..] == cs;
    }
  }

  class Events {
    var diagnosticEventsXdr: seq<bytes>
    var transactionEventsXdr: seq<bytes>
    var contractEventsXdr: seq<ContractEvent?>
    var unknownFields: bytes

    ghost function Reach(): set<object>
      reads this
    {
      {this} + NonNilContracts(contractEventsXdr)
    }

    ghost function Value(): M.Events
      reads this, NonNilContracts(contractEventsXdr)
    {
      M.Events(diagnosticEventsXdr, transactionEventsXdr, ContractValues(contractEventsXdr), unknownFields)
    }

    constructor ()
      ensures Value() == M.NO_EVENTS && contractEventsXdr == []
    {
      diagnosticEventsXdr, transactionEventsXdr, contractEventsXdr, unknownFields := [], [], [], [];
    }

    method SizeVT() returns (n: nat)
      requires |M.EncodeEvents(Value())| < TWO_63
      ensures n == |M.EncodeEvents(old(Value()))|
    {
      hide RepeatedBytes;
      n := SizeOfRepeatedBytes(0x0a, diagnosticEventsXdr);
      var l := SizeOfRepeatedBytes(0x12, transactionEventsXdr);
      n := n + l;
      assert Value() == old(Value());
      l := SizeOfContractEvents();
      n := n + l;
      n := n + |unknownFields|;
    }

    method SizeOfContractEvents() returns (n: nat)
      requires |M.RepeatedContractEvents(Value().contract)| < TWO_63
      ensures n == |M.RepeatedContractEvents(old(Value()).contract)|
    {
      hide BytesRecord, M.EncodeContractEvent;
      n := 0;
      ghost var vs := Value().contract;
      assert vs[0..] == vs;
      for i := 0 to |contractEventsXdr|
        invariant Value().contract == vs
        invariant n + |M.RepeatedContractEvents(vs[i..])| == |M.RepeatedContractEvents(vs)|
      {
        assert vs[i..][0] == vs[i] && vs[i..][1..] == vs[i + 1..];
        var l := ContractEvent.SizeVT(contractEventsXdr[i]);
        n := n + SizeOfRecord(l);
      }
    }

    method MarshalToSizedBufferVT(dAtA: array<byte>, end: nat) returns (size: nat)
      requires |M.EncodeEvents(Value())| <= end <= dAtA.Length < TWO_63
      modifies dAtA
      ensures size == |M.EncodeEvents(old(Value()))|
      ensures dAtA[end - size..] == M.EncodeEvents(old(Value())) + old(dAtA[end..])
      ensures dAtA[..end - size] == old(dAtA[..end - size])
    {
      hide RepeatedBytes, M.RepeatedContractEvents;
      var i := end - |unknownFields|;
      ghost var tail, base := dAtA[end..], dAtA[..];
      ghost var done := unknownFields;
      CopyAt(dAtA, i, unknownFields);
      ghost var v := Value();
      assert v == old(Value());
      i := MarshalContractEvents(dAtA, i, done, tail, base);
      assert v == Value();
      done := M.RepeatedContractEvents(v.contract) + done;
      i := WriteRepeatedBytes(dAtA, i, 0x12, transactionEventsXdr, done, tail, base);
      done := RepeatedBytes(0x12, transactionEventsXdr) + done;
      i := WriteRepeatedBytes(dAtA, i, 0x0a, diagnosticEventsXdr, done, tail, base);
      size := end - i;
    }

    /** The backward loop over the contract events. */
    method MarshalContractEvents(dAtA: array<byte>, i: nat, ghost done: bytes, ghost tail: bytes, ghost base: bytes)
      returns (start: nat)
      requires |M.RepeatedContractEvents(Value().contract)| <= i <= dAtA.Length < TWO_63
      requires dAtA[i..] == done + tail && i <= |base| && dAtA[..i] == base[..i]
      modifies dAtA
      ensures start == i - |M.RepeatedContractEvents(Value().contract)|
      ensures dAtA[start..] == (M.RepeatedContractEvents(Value().contract) + done) + tail
      ensures dAtA[..start] == base[..start]
    {
      hide BytesRecord, M.EncodeContractEvent, M.RepeatedContractEvents;
      start := i;
      ghost var vs := Value().contract;
      NoContractEvents();
      assert vs[|contractEventsXdr|..] == [];
      assert [] + done == done;
      for iNdEx := |contractEventsXdr| downto 0
        invariant Value().contract == vs
        invariant start == i - |M.RepeatedContractEvents(vs[iNdEx..])| && |M.RepeatedContractEvents(vs[iNdEx..])| <= i
        invariant dAtA[start..] == (M.RepeatedContractEvents(vs[iNdEx..]) + done) + tail
        invariant dAtA[..start] == base[..start]
      {
        ghost var written := M.RepeatedContractEvents(vs[iNdEx + 1..]);
        ghost var p := M.EncodeContractEvent(vs[iNdEx]);
        RepeatedContractEventsAt(vs, iNdEx);
        ghost var before := start;
        var size := ContractEvent.MarshalToSizedBufferVT(contractEventsXdr[iNdEx], dAtA, start);
        start := start - size;
        assert dAtA[..start] == base[..before][..start];
        start := WriteMessageHead(dAtA, start, 0x1a, size, p, written + done, tail, base);
        assert BytesRecord(0x1a, p) + (written + done) == (BytesRecord(0x1a, p) + written) + done;
      }
      assert vs[0..] == vs;
    }

    method MarshalVT() returns (dAtA: array<byte>)
      requires |M.EncodeEvents(Value())| < TWO_63
      ensures fresh(dAtA) && dAtA[..] == M.EncodeEvents(old(Value()))
    {
      ghost var v := Value();
      var size := SizeVT();
      assert Value() == v;
      dAtA := new byte[size];
      assert Value() == v;
      var n := MarshalToSizedBufferVT(dAtA, size);
      assert dAtA[size - n..] == dAtA[..] && dAtA[size..] == [];
    }

    /** A contract event appended empty, then filled in. */
    method UnmarshalContractEvent(dAtA: bytes) returns (err: Error)
      requires |dAtA| < TWO_63
      modifies this
      ensures err == NoError <==> Decode(M.ContractEventSchema, M.NO_CONTRACT_EVENT, dAtA).Some?
      ensures err == NoError ==>
        Value() == old(Value()).(contract := old(Value()).contract
                                  + [Decode(M.ContractEventSchema, M.NO_CONTRACT_EVENT, dAtA).value])
    {
      hide Decode;
      ghost var was := Value();
      var c := new ContractEvent();
      contractEventsXdr := contractEventsXdr + [c];
      err := c.UnmarshalVT(dAtA);
      if err == NoError {
        assert ContractValues(contractEventsXdr) == was.contract + [c.Value()];
      }
    }

    /** Assigning the object's own fields leaves its contract events alone. */
    twostate lemma ContractsKept()
      requires contractEventsXdr == old(contractEventsXdr)
      requires forall c :: c in NonNilContracts(contractEventsXdr) ==> unchanged(c)
      ensures Value().contract == old(Value()).contract
    {
      assert ContractValues(contractEventsXdr) == old(ContractValues(contractEventsXdr));
    }

    /** One turn of the decoding loop: reads the field at `iNdEx` and merges it in. */
    method MergeField(dAtA: bytes, iNdEx: nat) returns (err: Error, end: nat)
      requires iNdEx < |dAtA| < TWO_63
      modifies this
      ensures err != NoError ==> Decode(M.EventsSchema, old(Value()), dAtA[iNdEx..]) == None
      ensures err == NoError ==> iNdEx < end <= |dAtA|
      ensures err == NoError ==>
        Decode(M.EventsSchema, old(Value()), dAtA[iNdEx..]) == Decode(M.EventsSchema, Value(), dAtA[end..])
    {
      hide ReadVarint, ReadLength, Skip, Decode, Low;
      ghost var was := Value();
      end := iNdEx;
      var fieldNum, wireType, next, lo, hi;
      err, fieldNum, wireType, next := ReadTag(dAtA, iNdEx);
      if err != NoError {
        TagFails(M.EventsSchema, was, dAtA, iNdEx);
        return;
      }
      if fieldNum == 1 {
        SliceStep(M.EventsSchema, was, dAtA, iNdEx, next, fieldNum, wireType);
        err, lo, hi := ReadSlice(dAtA, next, wireType);
        if err != NoError { return; }
        diagnosticEventsXdr := diagnosticEventsXdr + [dAtA[lo..hi]];
        ContractsKept();
        end := hi;
      } else if fieldNum == 2 {
        SliceStep(M.EventsSchema, was, dAtA, iNdEx, next, fieldNum, wireType);
        err, lo, hi := ReadSlice(dAtA, next, wireType);
        if err != NoError { return; }
        transactionEventsXdr := transactionEventsXdr + [dAtA[lo..hi]];
        ContractsKept();
        end := hi;
      } else if fieldNum == 3 {
        SliceStep(M.EventsSchema, was, dAtA, iNdEx, next, fieldNum, wireType);
        err, lo, hi := ReadSlice(dAtA, next, wireType);
        if err != NoError { return; }
        SameEvents(this);
        err := UnmarshalContractEvent(dAtA[lo..hi]);
        if err != NoError { return; }
        end := hi;
      } else {
        UnknownStep(M.EventsSchema, was, dAtA, iNdEx, next, fieldNum, wireType);
        err, end := SkipUnknown(dAtA, iNdEx);
        if err != NoError { return; }
        unknownFields := unknownFields + dAtA[iNdEx..end];
        ContractsKept();
      }
    }

    method UnmarshalVT(dAtA: bytes) returns (err: Error)
      requires |dAtA| < TWO_63
      modifies this
      ensures err == NoError <==> Decode(M.EventsSchema, old(Value()), dAtA).Some?
      ensures err == NoError ==> Value() == Decode(M.EventsSchema, old(Value()), dAtA).value
    {
      hide Decode;
      err := NoError;
      var iNdEx := 0;
      assert dAtA[0..] == dAtA;
      while iNdEx < |dAtA|
        invariant 0 <= iNdEx <= |dAtA| && err == NoError
        invariant Decode(M.EventsSchema, old(Value()), dAtA) == Decode(M.EventsSchema, Value(), dAtA[iNdEx..])
      {
        err, iNdEx := MergeField(dAtA, iNdEx);
        if err != NoError { return; }
      }
      DecodeEnd(M.EventsSchema, Value(), dAtA[iNdEx..]);
    }

    static method EqualVT(m: Events?, that: Events?) returns (same: bool)
      ensures same <==> (m == null <==> that == null) && (m != null && that != null ==> m.Value() == that.Value())
    {
      if m == that {
        return true;
      }
      if m == null || that == null {
        return false;
      }
      same := EqualBytesLists(m.diagnosticEventsXdr, that.diagnosticEventsXdr);
      if !same { return; }
      same := EqualBytesLists(m.transactionEventsXdr, that.transactionEventsXdr);
      if !same { return; }
      same := EqualContractEvents(m.contractEventsXdr, that.contractEventsXdr);
      if !same { return; }
      return m.unknownFields == that.unknownFields;
    }

    static method CloneVT(m: Events?) returns (r: Events?)
      ensures m == null <==> r == null
      ensures m != null ==> fresh(r.Reach()) && r.Value() == old(m.Value())
    {
      if m == null {
        return null;
      }
      ghost var v := m.Value();
      r := new Events();
      var cs: seq<ContractEvent?> := [];
      for k := 0 to |m.contractEventsXdr|
        invariant |cs| == k && fresh(NonNilContracts(cs)) && fresh(r) && m.Value() == v
        invariant forall j :: 0 <= j < k ==> ContractEvent.Of(cs[j]) == ContractEvent.Of(m.contractEventsXdr[j])
      {
        var c := ContractEvent.CloneVT(m.contractEventsXdr[k]);
        assert NonNilContracts(cs + [c]) == NonNilContracts(cs) + (if c == null then {} else {c});
        cs := cs + [c];
      }
      r.diagnosticEventsXdr, r.transactionEventsXdr := m.diagnosticEventsXdr, m.transactionEventsXdr;
      r.contractEventsXdr, r.unknownFields := cs, m.unknownFields;
      assert ContractValues(cs) == v.contract;
    }
  }

  /** Events nobody wrote to keep their value. */
  twostate lemma SameEvents(e: Events)
    requires unchanged(e) && forall c :: c in NonNilContracts(e.contractEventsXdr) ==> unchanged(c)
    ensures e.Value() == old(e.Value())
  {
    assert ContractValues(e.contractEventsXdr) == old(ContractValues(e.contractEventsXdr));
  }

  /** The element loop for repeated messages: nil counts as empty. */
  method EqualContractEvents(xs: seq<ContractEvent?>, ys: seq<ContractEvent?>) returns (same: bool)
    ensures same <==> ContractValues(xs) == ContractValues(ys)
  {
    if |xs| != |ys| {
      return false;
    }
    for i := 0 to |xs|
      invariant forall j :: 0 <= j < i ==> ContractEvent.Of(xs[j]) == ContractEvent.Of(ys[j])
    {
      var p, q := xs[i], ys[i];
      if p != q {
        if p == null { p := new ContractEvent(); }
        if q == null { q := new ContractEvent(); }
        var eq := ContractEvent.EqualVT(p, q);
        if !eq {
          assert ContractValues(xs)[i] != ContractValues(ys)[i];
          return false;
        }
      }
    }
    return true;
  }
}
