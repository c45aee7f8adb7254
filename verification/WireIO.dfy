/**
 The loops of the generated code and of its helper package: varints written into a buffer
 and read from one, lengths under 64-bit wrap-around, and the skipping of unknown fields.
 Each is proved against the functions of Varints and Wire.
 */
module WireIO {
  import opened Base
  import opened Bits
  import opened Varints
  import opened Wire

  datatype Error =
    | NoError | IntOverflow | UnexpectedEOF | InvalidLength
    | WrongWireType | EndGroup | IllegalTag

  // ---- sizes, added up before a buffer is allocated ----

  function SizeOfOptVarint(v: uint64): (n: nat)
    ensures forall tag: byte :: |OptVarint(tag, v)| == n
  {
    SizeOfVarintIsExact(v);
    if v != 0 then 1 + SizeOfVarint(v) else 0
  }

  /** The size of a length-delimited record whose payload takes `l` bytes. */
  function SizeOfRecord(l: nat): (n: nat)
    requires l < TWO_64
    ensures forall tag: byte, p: bytes :: |p| == l ==> |BytesRecord(tag, p)| == n
  {
    SizeOfVarintIsExact(l);
    1 + l + SizeOfVarint(l)
  }

  function SizeOfOptBytes(p: bytes): (n: nat)
    requires |p| < TWO_64
    ensures forall tag: byte :: |OptBytes(tag, p)| == n
  {
    if |p| > 0 then SizeOfRecord(|p|) else 0
  }

  method SizeOfRepeatedBytes(tag: byte, ps: seq<bytes>) returns (n: nat)
    requires |RepeatedBytes(tag, ps)| < TWO_63
    ensures n == |RepeatedBytes(tag, ps)|
  {
    hide BytesRecord;
    n := 0;
    assert ps[0..] == ps;
    for i := 0 to |ps|
      invariant n + |RepeatedBytes(tag, ps[i..])| == |RepeatedBytes(tag, ps)|
    {
      assert ps[i..][1..] == ps[i + 1..];
      n := n + SizeOfRecord(|ps[i]|);
    }
  }

  // ---- writing, from the end of the buffer towards its start ----

  /** Writes `v` so that it ends just before `offset`; returns where it starts. */
  method EncodeVarint(dAtA: array<byte>, offset: nat, v: uint64) returns (base: nat)
    requires |Varint(v)| <= offset <= dAtA.Length
    modifies dAtA
    ensures base == offset - |Varint(v)|
    ensures dAtA[base..] == Varint(v) + old(dAtA[offset..])
    ensures dAtA[..base] == old(dAtA[..base])
  {
    SizeOfVarintIsExact(v);
    base := offset - SizeOfVarint(v);
    var i, w := base, v;
    while w >= 128
      invariant base <= i && i + |Varint(w)| == offset
      invariant dAtA[base..i] + Varint(w) == Varint(v)
      invariant dAtA[offset..] == old(dAtA[offset..]) && dAtA[..base] == old(dAtA[..base])
      decreases w
    {
      ghost var done := dAtA[base..i];
      dAtA[i] := w % 128 + 128;
      assert dAtA[base..i + 1] == done + [128 + w % 128];
      assert done + [128 + w % 128] + Varint(w / 128) == done + Varint(w);
      w := w / 128;
      i := i + 1;
    }
    ghost var done := dAtA[base..i];
    dAtA[i] := w;
    assert dAtA[base..offset] == done + [w];
    assert dAtA[base..] == dAtA[base..offset] + dAtA[offset..];
  }

  /** Go's copy(dAtA[i:], src) when src fits. */
  method CopyAt(dAtA: array<byte>, i: nat, src: bytes)
    requires i + |src| <= dAtA.Length
    modifies dAtA
    ensures dAtA[i..] == src + old(dAtA[i + |src|..])
    ensures dAtA[..i] == old(dAtA[..i])
  {
    forall k | 0 <= k < |src| {
      dAtA[i + k] := src[k];
    }
    assert dAtA[i..i + |src|] == src;
    assert dAtA[i..] == dAtA[i..i + |src|] + dAtA[i + |src|..];
  }

  /** A tag byte and a varint in front of position `i`. */
  method WriteVarintField(dAtA: array<byte>, i: nat, tag: byte, v: uint64) returns (start: nat)
    requires |VarintRecord(tag, v)| <= i <= dAtA.Length
    modifies dAtA
    ensures start == i - |VarintRecord(tag, v)|
    ensures dAtA[start..] == VarintRecord(tag, v) + old(dAtA[i..])
    ensures dAtA[..start] == old(dAtA[..start])
  {
    start := EncodeVarint(dAtA, i, v);
    ghost var after := dAtA[start..];
    start := start - 1;
    dAtA[start] := tag;
    assert dAtA[start..] == [tag] + after;
  }

  /** The tag and length of a payload of `size` bytes that starts at `i`. */
  method WriteHead(dAtA: array<byte>, i: nat, tag: byte, size: nat) returns (start: nat)
    requires size < TWO_64 && 1 + |Varint(size)| <= i && i + size <= dAtA.Length
    modifies dAtA
    ensures start == i - 1 - |Varint(size)|
    ensures dAtA[start..] == BytesRecord(tag, old(dAtA[i..i + size])) + old(dAtA[i + size..])
    ensures dAtA[..start] == old(dAtA[..start])
  {
    start := EncodeVarint(dAtA, i, size);
    ghost var after := dAtA[start..];
    start := start - 1;
    dAtA[start] := tag;
    assert dAtA[start..] == [tag] + after;
    assert old(dAtA[i..]) == old(dAtA[i..i + size]) + old(dAtA[i + size..]);
  }

  /** A byte string with its tag and length in front of position `i`. */
  method WriteBytesField(dAtA: array<byte>, i: nat, tag: byte, p: bytes) returns (start: nat)
    requires |BytesRecord(tag, p)| <= i <= dAtA.Length && |p| < TWO_64
    modifies dAtA
    ensures start == i - |BytesRecord(tag, p)|
    ensures dAtA[start..] == BytesRecord(tag, p) + old(dAtA[i..])
    ensures dAtA[..start] == old(dAtA[..start])
  {
    start := i - |p|;
    CopyAt(dAtA, start, p);
    assert dAtA[start..start + |p|] == dAtA[start..][..|p|] == p;
    assert dAtA[start + |p|..] == dAtA[start..][|p|..] == old(dAtA[i..]);
    start := WriteHead(dAtA, start, tag, |p|);
  }

  // In the methods below `done` is what the message has written from `i` on, `tail` what
  // the buffer holds after the message, and `base` what the buffer held before it.

  method WriteOptVarint(dAtA: array<byte>, i: nat, tag: byte, v: uint64, ghost done: bytes, ghost tail: bytes,
      ghost base: bytes)
    returns (start: nat)
    requires |OptVarint(tag, v)| <= i <= dAtA.Length && dAtA[i..] == done + tail
    requires i <= |base| && dAtA[..i] == base[..i]
    modifies dAtA
    ensures start == i - |OptVarint(tag, v)|
    ensures dAtA[start..] == (OptVarint(tag, v) + done) + tail
    ensures dAtA[..start] == base[..start]
  {
    hide VarintRecord;
    start := i;
    if v != 0 {
      start := WriteVarintField(dAtA, i, tag, v);
      assert dAtA[..start] == base[..i][..start];
      assert VarintRecord(tag, v) + (done + tail) == (VarintRecord(tag, v) + done) + tail;
    } else {
      assert [] + done == done;
    }
  }

  method WriteOptBytes(dAtA: array<byte>, i: nat, tag: byte, p: bytes, ghost done: bytes, ghost tail: bytes,
      ghost base: bytes)
    returns (start: nat)
    requires |OptBytes(tag, p)| <= i <= dAtA.Length < TWO_63 && dAtA[i..] == done + tail
    requires i <= |base| && dAtA[..i] == base[..i]
    modifies dAtA
    ensures start == i - |OptBytes(tag, p)|
    ensures dAtA[start..] == (OptBytes(tag, p) + done) + tail
    ensures dAtA[..start] == base[..start]
  {
    hide BytesRecord;
    start := i;
    if |p| > 0 {
      start := WriteBytesField(dAtA, i, tag, p);
      assert dAtA[..start] == base[..i][..start];
      assert BytesRecord(tag, p) + (done + tail) == (BytesRecord(tag, p) + done) + tail;
    } else {
      assert [] + done == done;
    }
  }

  /** The tag and length of a sub-message already written from `i` to `i + size`. */
  method WriteMessageHead(dAtA: array<byte>, i: nat, tag: byte, size: nat, ghost p: bytes, ghost done: bytes,
      ghost tail: bytes,
      ghost base: bytes)
    returns (start: nat)
    requires size == |p| && i + size <= dAtA.Length < TWO_63 && |BytesRecord(tag, p)| <= i + size
    requires dAtA[i..] == p + (done + tail)
    requires i <= |base| && dAtA[..i] == base[..i]
    modifies dAtA
    ensures start == i + size - |BytesRecord(tag, p)|
    ensures dAtA[start..] == (BytesRecord(tag, p) + done) + tail
    ensures dAtA[..start] == base[..start]
  {
    hide Varint;
    assert dAtA[i..i + size] == dAtA[i..][..size] == p;
    assert dAtA[i + size..] == dAtA[i..][size..] == done + tail;
    start := WriteHead(dAtA, i, tag, size);
    assert dAtA[..start] == base[..i][..start];
    assert BytesRecord(tag, p) + (done + tail) == (BytesRecord(tag, p) + done) + tail;
  }

  method WriteRepeatedBytes(dAtA: array<byte>, i: nat, tag: byte, ps: seq<bytes>, ghost done: bytes, ghost tail: bytes,
      ghost base: bytes)
    returns (start: nat)
    requires |RepeatedBytes(tag, ps)| <= i <= dAtA.Length < TWO_63 && dAtA[i..] == done + tail
    requires i <= |base| && dAtA[..i] == base[..i]
    modifies dAtA
    ensures start == i - |RepeatedBytes(tag, ps)|
    ensures dAtA[start..] == (RepeatedBytes(tag, ps) + done) + tail
    ensures dAtA[..start] == base[..start]
  {
    assert RepeatedBytes(tag, []) == [] && ps[|ps|..] == [];
    hide BytesRecord, RepeatedBytes;
    start := i;
    assert [] + done == done;
    for iNdEx := |ps| downto 0
      invariant start == i - |RepeatedBytes(tag, ps[iNdEx..])| && |RepeatedBytes(tag, ps[iNdEx..])| <= i
      invariant dAtA[start..] == (RepeatedBytes(tag, ps[iNdEx..]) + done) + tail
      invariant dAtA[..start] == base[..start]
    {
      RepeatedBytesAt(tag, ps, iNdEx);
      ghost var written := RepeatedBytes(tag, ps[iNdEx + 1..]);
      ghost var after := start;
      start := WriteBytesField(dAtA, start, tag, ps[iNdEx]);
      PrependRecord(BytesRecord(tag, ps[iNdEx]), written, done, tail);
      assert dAtA[..start] == base[..after][..start];
    }
    assert ps[0..] == ps;
  }

  lemma PrependRecord(record: bytes, written: bytes, done: bytes, tail: bytes)
    ensures record + ((written + done) + tail) == ((record + written) + done) + tail
  {
  }

  lemma RepeatedBytesAt(tag: byte, ps: seq<bytes>, k: nat)
    requires k < |ps|
    ensures RepeatedBytes(tag, ps[k..]) == BytesRecord(tag, ps[k]) + RepeatedBytes(tag, ps[k + 1..])
    ensures |RepeatedBytes(tag, ps[k..])| <= |RepeatedBytes(tag, ps)|
  {
    hide BytesRecord;
    assert ps[k..][0] == ps[k] && ps[k..][1..] == ps[k + 1..];
    RepeatedBytesSuffix(tag, ps, k);
  }

  lemma {:induction false} RepeatedBytesSuffix(tag: byte, ps: seq<bytes>, k: nat)
    requires k <= |ps|
    ensures |RepeatedBytes(tag, ps[k..])| <= |RepeatedBytes(tag, ps)|
    decreases k
  {
    if k > 0 {
      assert ps[k..] == ps[1..][k - 1..];
      RepeatedBytesSuffix(tag, ps[1..], k - 1);
    } else {
      assert ps[0..] == ps;
    }
  }

  // ---- reading ----

  /** A 64-bit accumulator keeps a 64-bit number; a 32-bit one keeps what a conversion keeps. */
  lemma LowOfUint64(bits: uint64)
    ensures Low(bits, TWO_64) == bits
    ensures Low(bits, TWO_32) == ToUint32(bits) && ToInt32(Low(bits, TWO_32)) == ToInt32(bits)
  {
  }

  /** Narrow accumulators see the low bits of the 64-bit value. */
  lemma LowOfLow(raw: nat, width: nat)
    requires width == TWO_32 || width == TWO_64
    ensures Low(ToUint64(raw), width) == Low(raw, width)
  {
    assert (raw % TWO_64) % TWO_32 == raw % TWO_32;
  }

  /** The number read when `k` groups gave `raw` and the rest of the input gives `rest`. */
  ghost function Resume(raw: nat, shift: nat, k: nat, rest: Option<(nat, nat)>): Option<(nat, nat)> {
    match rest
    case None => None
    case Some((c, n)) => Some((raw + Pow2(shift) * c, k + n))
  }

  lemma ResumeStep(bs: bytes, k: nat, raw: nat, shift: nat)
    requires bs != [] && k < 10 && bs[0] >= 128
    ensures Resume(raw, shift, k, ReadGroups(bs, k))
         == Resume(raw + Group(bs[0], shift), shift + 7, k + 1, ReadGroups(bs[1..], k + 1))
  {
    Pow2Step(shift);
    var scale, rest := Pow2(shift), ReadGroups(bs[1..], k + 1);
    if rest.Some? {
      var d, c := bs[0] - 128, rest.value.0;
      assert bs[0] % 128 == d;
      assert scale * (d + 128 * c) == d * scale + (128 * scale) * c;
    }
  }

  /** The shift loop every scalar, length and tag is read with; `width` is the accumulator's. */
  method ReadUvarint(dAtA: bytes, iNdEx: nat, width: nat) returns (err: Error, v: nat, next: nat)
    requires iNdEx <= |dAtA| && (width == TWO_32 || width == TWO_64)
    ensures err == NoError || err == IntOverflow || err == UnexpectedEOF
    ensures err == NoError <==> ReadVarint(dAtA[iNdEx..]).Some?
    ensures err == NoError ==>
      var (bits, n) := ReadVarint(dAtA[iNdEx..]).value;
      v == Low(bits, width) && next == iNdEx + n <= |dAtA|
  {
    assert Pow2(0) == 1;
    hide ReadGroups, ReadVarint, Low, ShiftIn, Group, Resume, Pow2;
    v, next := 0, iNdEx;
    var shift := 0;
    ghost var k: nat, raw: nat := 0, 0;
    ghost var whole := ReadGroups(dAtA[iNdEx..], 0);
    ResumeStart(dAtA[iNdEx..], width);
    while true
      invariant next == iNdEx + k <= |dAtA| && shift == 7 * k && k <= 10
      invariant raw < Pow2(shift) && v == Low(raw, width)
      invariant whole == Resume(raw, shift, k, ReadGroups(dAtA[next..], k))
      decreases 10 - k
    {
      if shift >= 64 {
        GroupsEnd(dAtA, iNdEx, next, k, raw, shift);
        return IntOverflow, 0, next;
      }
      if next >= |dAtA| {
        GroupsEnd(dAtA, iNdEx, next, k, raw, shift);
        return UnexpectedEOF, 0, next;
      }
      var b := dAtA[next];
      ghost var bs := dAtA[next..];
      assert bs[0] == b && bs[1..] == dAtA[next + 1..];
      next := next + 1;
      ShiftInLow(raw, b, shift, width);
      v := ShiftIn(v, b, shift, width);
      if b < 128 {
        GroupsLast(dAtA, iNdEx, next - 1, k, raw, shift, width);
        return NoError, v, next;
      }
      ResumeStep(bs, k, raw, shift);
      GroupBound(raw, b, shift);
      raw, k := raw + Group(b, shift), k + 1;
      shift := shift + 7;
    }
  }

  lemma ResumeStart(bs: bytes, width: nat)
    requires width == TWO_32 || width == TWO_64
    ensures ReadGroups(bs, 0) == Resume(0, 0, 0, ReadGroups(bs, 0)) && Low(0, width) == 0
  {
  }

  lemma GroupsEnd(dAtA: bytes, i: nat, next: nat, k: nat, raw: nat, shift: nat)
    requires i <= next <= |dAtA| && (next == |dAtA| || k >= 10)
    requires ReadGroups(dAtA[i..], 0) == Resume(raw, shift, k, ReadGroups(dAtA[next..], k))
    ensures ReadVarint(dAtA[i..]) == None
  {
  }

  lemma TopGroup(b: byte, shift: nat)
    requires b < 128
    ensures Group(b, shift) == Pow2(shift) * b
  {
  }

  lemma GroupsLast(dAtA: bytes, i: nat, next: nat, k: nat, raw: nat, shift: nat, width: nat)
    requires i <= next < |dAtA| && k < 10 && dAtA[next] < 128 && (width == TWO_32 || width == TWO_64)
    requires ReadGroups(dAtA[i..], 0) == Resume(raw, shift, k, ReadGroups(dAtA[next..], k))
    ensures ReadVarint(dAtA[i..]).Some? && ReadVarint(dAtA[i..]).value.1 == k + 1
    ensures Low(ReadVarint(dAtA[i..]).value.0, width) == Low(raw + Group(dAtA[next], shift), width)
  {
    hide Low, ToUint64, Group;
    assert dAtA[next..][0] == dAtA[next];
    TopGroup(dAtA[next], shift);
    LowOfLow(raw + Group(dAtA[next], shift), width);
  }

  /** A length and the end it implies; the addition wraps at 64 bits as Go's does. */
  method ReadBounds(dAtA: bytes, iNdEx: nat) returns (err: Error, lo: nat, hi: nat)
    requires iNdEx <= |dAtA| < TWO_63
    ensures err == NoError <==> ReadLength(dAtA[iNdEx..]).Some?
    ensures err == NoError ==>
      ReadLength(dAtA[iNdEx..]) == Some((lo - iNdEx, hi - iNdEx)) && iNdEx <= lo <= hi <= |dAtA|
  {
    hide ReadVarint, ToInt64;
    lo, hi := 0, 0;
    var e, v, next := ReadUvarint(dAtA, iNdEx, TWO_64);
    if e != NoError {
      return e, 0, 0;
    }
    var byteLen: int64 := ToInt64(v);
    if byteLen < 0 {
      return InvalidLength, 0, 0;
    }
    var postIndex: int64 := ToInt64(next + byteLen);
    if postIndex < 0 {
      return InvalidLength, 0, 0;
    }
    if postIndex > |dAtA| {
      return UnexpectedEOF, 0, 0;
    }
    return NoError, next, postIndex;
  }

  /** A tag that passes every message's checks lies between `i` and `j`. */
  ghost predicate TagAt(dAtA: bytes, i: nat, j: nat, num: int, wireType: int) {
    i < j <= |dAtA| &&
    var r := ReadVarint(dAtA[i..]);
    r.Some? && j == i + r.value.1 && num == FieldNumber(r.value.0) > 0 && wireType == r.value.0 % 8 != 4
  }

  ghost predicate NoTagAt(dAtA: bytes, i: nat) {
    i < |dAtA| &&
    var r := ReadVarint(dAtA[i..]);
    r.None? || FieldNumber(r.value.0) <= 0 || r.value.0 % 8 == 4
  }

  /** The tag at the head of a field, with the checks every message makes on it. */
  method ReadTag(dAtA: bytes, iNdEx: nat) returns (err: Error, fieldNum: int, wireType: int, next: nat)
    requires iNdEx < |dAtA|
    ensures err == NoError ==> TagAt(dAtA, iNdEx, next, fieldNum, wireType)
    ensures err != NoError ==> NoTagAt(dAtA, iNdEx)
  {
    hide ReadVarint;
    var e, wire, after := ReadUvarint(dAtA, iNdEx, TWO_64);
    fieldNum, wireType, next := 0, 0, after;
    if e != NoError {
      return e, 0, 0, next;
    }
    fieldNum := ToInt32(wire / 8);
    wireType := wire % 8;
    if wireType == 4 {
      return EndGroup, fieldNum, wireType, next;
    }
    if fieldNum <= 0 {
      return IllegalTag, fieldNum, wireType, next;
    }
    err := NoError;
  }

  /** The body of a scalar field, from `iNdEx` just after its tag. */
  method ReadScalar(dAtA: bytes, iNdEx: nat, wireType: int, width: nat) returns (err: Error, v: nat, next: nat)
    requires iNdEx <= |dAtA| && (width == TWO_32 || width == TWO_64)
    ensures err == NoError <==> wireType == 0 && ReadVarint(dAtA[iNdEx..]).Some?
    ensures err == NoError ==>
      var (bits, n) := ReadVarint(dAtA[iNdEx..]).value;
      v == Low(bits, width) && next == iNdEx + n <= |dAtA|
  {
    if wireType != 0 {
      return WrongWireType, 0, iNdEx;
    }
    err, v, next := ReadUvarint(dAtA, iNdEx, width);
  }

  /** The bounds of a byte string or sub-message, from `iNdEx` just after its tag. */
  method ReadSlice(dAtA: bytes, iNdEx: nat, wireType: int) returns (err: Error, lo: nat, hi: nat)
    requires iNdEx <= |dAtA| < TWO_63
    ensures err == NoError <==> wireType == 2 && ReadLength(dAtA[iNdEx..]).Some?
    ensures err == NoError ==>
      ReadLength(dAtA[iNdEx..]) == Some((lo - iNdEx, hi - iNdEx)) && iNdEx <= lo <= hi <= |dAtA|
  {
    if wireType != 2 {
      return WrongWireType, 0, 0;
    }
    err, lo, hi := ReadBounds(dAtA, iNdEx);
  }

  /** The switch on the wire type inside Skip; the end it returns may lie past the input. */
  method SkipPayload(dAtA: bytes, iNdEx: nat, wireType: int) returns (err: Error, end: int64)
    requires iNdEx <= |dAtA| < TWO_63
    ensures err == NoError ==> end >= iNdEx
    ensures (err == NoError && end <= |dAtA|) <==> PayloadSize(wireType, dAtA[iNdEx..]).Some?
    ensures err == NoError && end <= |dAtA| ==> PayloadSize(wireType, dAtA[iNdEx..]) == Some(end - iNdEx)
  {
    hide ReadVarint, ToInt64;
    end := iNdEx;
    if wireType == 0 {
      var e, wire, next := ReadUvarint(dAtA, iNdEx, TWO_64);
      return e, if e == NoError then next else 0;
    } else if wireType == 1 {
      end := ToInt64(iNdEx + 8);
    } else if wireType == 2 {
      var e, wire, next := ReadUvarint(dAtA, iNdEx, TWO_64);
      if e != NoError {
        return e, 0;
      }
      var length: int64 := ToInt64(wire);
      if length < 0 {
        return InvalidLength, 0;
      }
      end := ToInt64(next + length);
    } else if wireType == 5 {
      end := ToInt64(iNdEx + 4);
    } else if wireType != 3 && wireType != 4 {
      return IllegalTag, 0;
    }
    if end < 0 {
      return InvalidLength, 0;
    }
    err := NoError;
  }

  /** One turn of Skip: a tag, the groups it opens or closes, its payload. */
  method SkipTurn(dAtA: bytes, iNdEx: nat, depth: nat) returns (err: Error, end: int64, open: nat)
    requires iNdEx < |dAtA| < TWO_63
    ensures err == NoError ==> end > iNdEx
    ensures (err == NoError && end <= |dAtA|) <==> SkipOne(dAtA[iNdEx..], depth).Some?
    ensures err == NoError && end <= |dAtA| ==> SkipOne(dAtA[iNdEx..], depth) == Some((end - iNdEx, open))
    ensures err == NoError && end > |dAtA| ==> open == depth
  {
    hide ReadVarint, PayloadSize;
    open := depth;
    var e, wire, next := ReadUvarint(dAtA, iNdEx, TWO_64);
    if e != NoError {
      return e, 0, open;
    }
    LowOfUint64(ReadVarint(dAtA[iNdEx..]).value.0);
    assert dAtA[iNdEx..][next - iNdEx..] == dAtA[next..];
    var wireType := wire % 8;
    if wireType == 3 {
      open := depth + 1;
    } else if wireType == 4 {
      if depth == 0 {
        return EndGroup, 0, open;
      }
      open := depth - 1;
    }
    err, end := SkipPayload(dAtA, next, wireType);
    if wireType == 3 || wireType == 4 { GroupTagsHaveNoPayload(wireType, dAtA[next..]); }
  }

  lemma GroupTagsHaveNoPayload(wireType: int, bs: bytes)
    requires wireType == 3 || wireType == 4
    ensures PayloadSize(wireType, bs) == Some(0)
  {
  }

  /**
   protohelpers.Skip: the size of the field at the head of `dAtA`. A fixed-size payload
   may be announced past the end, which the caller checks; groups nest.
   */
  method SkipField(dAtA: bytes) returns (err: Error, n: int64)
    requires |dAtA| < TWO_63
    ensures err == NoError ==> 0 <= n
    ensures (err == NoError && n <= |dAtA|) <==> Skip(dAtA).Some?
    ensures err == NoError && n <= |dAtA| ==> Skip(dAtA) == Some(n)
  {
    hide SkipOne;
    n := 0;
    var iNdEx: int64, depth: nat := 0, 0;
    assert dAtA[0..] == dAtA;
    while iNdEx < |dAtA|
      invariant 0 <= iNdEx
      invariant iNdEx > |dAtA| ==> Skip(dAtA) == None
      invariant iNdEx <= |dAtA| ==>
        Skip(dAtA) == match SkipFrom(dAtA[iNdEx..], depth) case None => None case Some(k) => Some(iNdEx + k)
      decreases |dAtA| - iNdEx
    {
      ghost var bs, start: nat := dAtA[iNdEx..], iNdEx;
      var e;
      e, iNdEx, depth := SkipTurn(dAtA, iNdEx, depth);
      if e != NoError {
        return e, 0;
      }
      if depth == 0 {
        return NoError, iNdEx;
      }
      if iNdEx <= |dAtA| {
        assert bs[iNdEx - start..] == dAtA[iNdEx..];
      }
    }
    return UnexpectedEOF, 0;
  }

  /** The default branch: an unknown field is skipped whole, tag included. */
  method SkipUnknown(dAtA: bytes, preIndex: nat) returns (err: Error, end: nat)
    requires preIndex <= |dAtA| < TWO_63
    ensures err == NoError <==> Skip(dAtA[preIndex..]).Some?
    ensures err == NoError ==> preIndex <= end <= |dAtA| && Skip(dAtA[preIndex..]) == Some(end - preIndex)
  {
    hide Skip;
    var e, skippy := SkipField(dAtA[preIndex..]);
    if e != NoError {
      return e, preIndex;
    }
    var after: int64 := ToInt64(preIndex + skippy);
    if skippy < 0 || after < 0 {
      return InvalidLength, preIndex;
    }
    if after > |dAtA| {
      return UnexpectedEOF, preIndex;
    }
    return NoError, after;
  }

  // ---- one turn of the decoding loop, in terms of positions in the buffer ----

  lemma TagFails<M>(s: Schema<M>, m: M, dAtA: bytes, i: nat)
    requires NoTagAt(dAtA, i)
    ensures Decode(s, m, dAtA[i..]) == None
  {
    hide ReadVarint;
  }

  lemma DecodeEnd<M>(s: Schema<M>, m: M, rest: bytes)
    requires rest == []
    ensures Decode(s, m, rest) == Some(m)
  {
  }

  lemma ScalarAt(kind: int -> Kind, dAtA: bytes, i: nat, j: nat, num: int, wireType: int)
    requires TagAt(dAtA, i, j, num, wireType) && kind(num) == VarintKind
    ensures ReadField(kind, dAtA[i..])
         == if wireType != 0 then None
            else match ReadVarint(dAtA[j..])
              case None => None
              case Some((v, n)) => Some((VarintField(num, v), j + n - i))
  {
    hide ReadVarint;
    assert dAtA[i..][j - i..] == dAtA[j..];
  }

  lemma ScalarStep<M>(s: Schema<M>, m: M, dAtA: bytes, i: nat, j: nat, num: int, wireType: int)
    requires TagAt(dAtA, i, j, num, wireType) && s.kind(num) == VarintKind
    ensures Decode(s, m, dAtA[i..])
         == if wireType != 0 then None
            else match ReadVarint(dAtA[j..])
              case None => None
              case Some((v, n)) =>
                match s.merge(m, VarintField(num, v))
                case None => None
                case Some(m') => Decode(s, m', dAtA[j + n..])
  {
    hide ReadVarint, ReadField;
    ScalarAt(s.kind, dAtA, i, j, num, wireType);
    var r := ReadVarint(dAtA[j..]);
    if r.Some? {
      assert dAtA[i..][j + r.value.1 - i..] == dAtA[j + r.value.1..];
    }
  }

  lemma SliceAt(kind: int -> Kind, dAtA: bytes, i: nat, j: nat, num: int, wireType: int)
    requires TagAt(dAtA, i, j, num, wireType) && kind(num) == BytesKind
    ensures ReadField(kind, dAtA[i..])
         == if wireType != 2 then None
            else match ReadLength(dAtA[j..])
              case None => None
              case Some((lo, hi)) => Some((BytesField(num, dAtA[j + lo..j + hi]), j + hi - i))
  {
    hide ReadVarint, ReadLength;
    assert dAtA[i..][j - i..] == dAtA[j..];
    var r := ReadLength(dAtA[j..]);
    if r.Some? {
      assert dAtA[i..][j - i + r.value.0..j - i + r.value.1] == dAtA[j + r.value.0..j + r.value.1];
    }
  }

  lemma SliceStep<M>(s: Schema<M>, m: M, dAtA: bytes, i: nat, j: nat, num: int, wireType: int)
    requires TagAt(dAtA, i, j, num, wireType) && s.kind(num) == BytesKind
    ensures Decode(s, m, dAtA[i..])
         == if wireType != 2 then None
            else match ReadLength(dAtA[j..])
              case None => None
              case Some((lo, hi)) =>
                match s.merge(m, BytesField(num, dAtA[j + lo..j + hi]))
                case None => None
                case Some(m') => Decode(s, m', dAtA[j + hi..])
  {
    hide ReadVarint, ReadLength, ReadField;
    SliceAt(s.kind, dAtA, i, j, num, wireType);
    var r := ReadLength(dAtA[j..]);
    if r.Some? {
      assert dAtA[i..][j + r.value.1 - i..] == dAtA[j + r.value.1..];
    }
  }

  lemma UnknownStep<M>(s: Schema<M>, m: M, dAtA: bytes, i: nat, j: nat, num: int, wireType: int)
    requires TagAt(dAtA, i, j, num, wireType) && s.kind(num) == UnknownKind
    ensures Decode(s, m, dAtA[i..])
         == match Skip(dAtA[i..])
            case None => None
            case Some(n) => Decode(s, s.keep(m, dAtA[i..i + n]), dAtA[i + n..])
  {
    hide ReadVarint, Skip;
    var r := Skip(dAtA[i..]);
    if r.Some? {
      var n := r.value;
      assert dAtA[i..][..n] == dAtA[i..i + n];
      assert dAtA[i..][n..] == dAtA[i + n..];
    }
  }
}
