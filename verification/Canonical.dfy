/**
 What the encoder may write, said without it: the fields block.proto declares, in ascending
 order, scalars left out when zero and byte strings when empty, every varint as short as it
 can be, unknown bytes last. Exactly one byte string of this form decodes to a message.
 */
module Canonical {
  import opened Base
  import opened Varints
  import opened Wire
  import opened Messages
  import opened RoundTrip

  datatype Width = Bits32 | Bits64 | Signed32

  /** The declared type of a field. */
  datatype Shape =
    | Scalar(width: Width)
    | Text
    | Texts
    | Message(layout: Layout)
    | Many(layout: Layout)

  datatype Layout = Layout(fields: map<int, Shape>)

  const TIMESTAMP := Layout(map[1 := Scalar(Bits64), 2 := Scalar(Signed32)])
  const HEADER := Layout(
    map[1 := Scalar(Bits32), 2 := Text, 3 := Scalar(Bits64), 4 := Scalar(Bits32), 5 := Scalar(Bits32)])
  const CONTRACT_EVENT := Layout(map[1 := Texts])
  const EVENTS := Layout(map[1 := Texts, 2 := Texts, 3 := Many(CONTRACT_EVENT)])
  const TRANSACTION := Layout(
    map[1 := Text, 2 := Scalar(Signed32), 3 := Message(TIMESTAMP), 5 := Scalar(Bits64), 6 := Text, 8 := Text,
        9 := Message(EVENTS)])
  const BLOCK := Layout(
    map[1 := Scalar(Bits64), 2 := Text, 3 := Message(HEADER), 4 := Scalar(Bits64), 6 := Many(TRANSACTION),
        9 := Message(TIMESTAMP)])

  function KindOf(l: Layout): int -> Kind {
    (num: int) =>
      if num !in l.fields then UnknownKind else if l.fields[num].Scalar? then VarintKind else BytesKind
  }

  /** The 64 bits are those of a value of this width, sign-extended if it has a sign. */
  predicate Fits(w: Width, v: uint64) {
    match w
    case Bits32 => v < TWO_32
    case Bits64 => true
    case Signed32 => v < TWO_31 || TWO_64 - TWO_31 <= v
  }

  /** The varint at the head of `bs` has no empty last group, and no group is cut to 64 bits. */
  predicate Shortest(bs: bytes)
    requires ReadVarint(bs).Some?
  {
    var n := ReadVarint(bs).value.1;
    (n == 1 || bs[n - 1] != 0) && (n == 10 ==> bs[n - 1] < 2)
  }

  /** A tag of one byte, and a value or length right after it that is not longer than need be. */
  predicate Tight(bs: bytes) {
    bs != [] && bs[0] < 128 && ReadVarint(bs[1..]).Some? && Shortest(bs[1..])
  }

  /** The form of a message whose known fields start at number `from`. */
  predicate Canonical(l: Layout, from: int, bs: bytes)
    decreases |bs|
  {
    bs == [] ||
    match ReadField(KindOf(l), bs)
    case None => false
    case Some((UnknownField(_), _)) => OnlyUnknown(KindOf(l), bs)
    case Some((VarintField(num, v), n)) =>
      && from <= num && v != 0 && Fits(l.fields[num].width, v)
      && Tight(bs) && Canonical(l, num + 1, bs[n..])
    case Some((BytesField(num, p), n)) =>
      && from <= num
      && Tight(bs)
      && (match l.fields[num]
          case Scalar(_) => false
          case Text => p != [] && Canonical(l, num + 1, bs[n..])
          case Texts => Canonical(l, num, bs[n..])
          case Message(sub) => Canonical(sub, 0, p) && Canonical(l, num + 1, bs[n..])
          case Many(sub) => Canonical(sub, 0, p) && Canonical(l, num, bs[n..]))
  }

  lemma CanonicalFromLess(l: Layout, from: int, less: int, bs: bytes)
    requires Canonical(l, from, bs) && less <= from
    ensures Canonical(l, less, bs)
  {
    hide ReadField, OnlyUnknown, Tight;
  }

  // ---- shortest varints are those the encoder writes ----

  lemma OneGroupInFront(b: byte, u: nat)
    requires b >= 128 && u > 0
    ensures Varint(b - 128 + 128 * u) == [b] + Varint(u) && b - 128 + 128 * u >= 128
  {
    var v: nat := b - 128 + 128 * u;
    assert v / 128 == u && v % 128 == b - 128;
  }

  lemma {:induction false} ShortestGroups(bs: bytes, k: nat)
    requires k < 10 && ReadGroups(bs, k).Some?
    requires var n := ReadGroups(bs, k).value.1; n == 1 || bs[n - 1] != 0
    ensures var (v, n) := ReadGroups(bs, k).value; bs[..n] == Varint(v) && (n > 1 ==> v >= 128)
    decreases |bs|
  {
    var (v, n) := ReadGroups(bs, k).value;
    if bs[0] < 128 {
      assert bs[..1] == [bs[0]];
    } else {
      var (u, n') := ReadGroups(bs[1..], k + 1).value;
      assert bs[1..][n' - 1] == bs[n - 1];
      ShortestGroups(bs[1..], k + 1);
      assert bs[..n] == [bs[0]] + bs[1..][..n'];
      hide Varint;
      OneGroupInFront(bs[0], u);
    }
  }

  lemma {:induction false} CapacityOfGroups(k: nat)
    requires k < 10
    ensures Capacity(k) % 128 == 0 && Capacity(k) >= 128
    decreases 10 - k
  {
    if k < 9 { CapacityOfGroups(k + 1); }
    WholeGroup(Capacity(k + 1));
  }

  lemma WholeGroup(c: nat)
    ensures 128 * c % 128 == 0
  {
  }

  lemma {:induction false} GroupsBelow(bs: bytes, k: nat)
    requires k < 10 && ReadGroups(bs, k).Some?
    requires var n := ReadGroups(bs, k).value.1; n == 10 - k ==> bs[n - 1] < 2
    ensures 64 * ReadGroups(bs, k).value.0 < Capacity(k)
    decreases |bs|
  {
    if bs[0] >= 128 {
      var (u, n) := ReadGroups(bs[1..], k + 1).value;
      assert bs[1..][n - 1] == bs[n];
      GroupsBelow(bs[1..], k + 1);
      CapacityOfGroups(k + 1);
      OneMoreGroup(bs[0], u, Capacity(k + 1));
    } else if k < 9 {
      CapacityOfGroups(k + 1);
    }
  }

  lemma OneMoreGroup(b: byte, u: nat, c: nat)
    requires 64 * u < c && c % 128 == 0 && b >= 128
    ensures 64 * (b - 128 + 128 * u) < 128 * c
  {
    assert 64 * u <= c - 64;
  }

  lemma ShortestIsVarint(bs: bytes)
    requires ReadVarint(bs).Some? && Shortest(bs)
    ensures var (v, n) := ReadVarint(bs).value; bs[..n] == Varint(v)
  {
    ShortestGroups(bs, 0);
    GroupsBelow(bs, 0);
    TenGroupsHold64Bits();
  }

  lemma {:induction false} VarintEnd(v: nat, k: nat)
    requires k < 10 && 64 * v < Capacity(k)
    ensures var s := Varint(v); |s| <= 10 - k && (|s| == 1 || s[|s| - 1] != 0) && (|s| == 10 - k ==> s[|s| - 1] < 2)
    decreases v
  {
    if v >= 128 { 
      VarintEnd(v / 128, k + 1);
    }
  }

  lemma VarintIsShortest(v: uint64, rest: bytes)
    ensures ReadVarint(Varint(v) + rest) == Some((v, |Varint(v)|)) && Shortest(Varint(v) + rest)
  {
    VarintRoundTrip(v, rest);
    TenGroupsHold64Bits();
    VarintEnd(v, 0);
  }

  // ---- what is written is canonical, piece by piece ----

  /** A known field has a number that fits a tag of one byte. */
  predicate Declares(l: Layout, num: int) {
    num in l.fields && 1 <= num < 16
  }

  lemma TightRecord(tag: byte, v: uint64, rest: bytes)
    requires 8 <= tag < 128
    ensures Tight([tag] + Varint(v) + rest)
  {
    VarintIsShortest(v, rest);
    assert ([tag] + Varint(v) + rest)[1..] == Varint(v) + rest;
  }

  lemma WriteScalar(l: Layout, from: int, num: int, v: uint64, rest: bytes)
    requires Declares(l, num) && from <= num && l.fields[num].Scalar? && Fits(l.fields[num].width, v)
    requires Canonical(l, num + 1, rest)
    ensures Canonical(l, from, OptVarint(8 * num, v) + rest)
  {
    hide ReadField, OnlyUnknown, Tight;
    if v == 0 {
      assert [] + rest == rest;
      CanonicalFromLess(l, num + 1, from, rest);
    } else {
      var r := VarintRecord(8 * num, v);
      ReadVarintRecord(KindOf(l), 8 * num, v, rest);
      TightRecord(8 * num, v, rest);
      assert (r + rest)[|r|..] == rest;
    }
  }

  lemma WriteBytes(l: Layout, from: int, num: int, p: bytes, rest: bytes)
    requires Declares(l, num) && from <= num && |p| < TWO_63
    requires match l.fields[num]
      case Scalar(_) => false
      case Text => p != [] && Canonical(l, num + 1, rest)
      case Texts => Canonical(l, num, rest)
      case Message(sub) => Canonical(sub, 0, p) && Canonical(l, num + 1, rest)
      case Many(sub) => Canonical(sub, 0, p) && Canonical(l, num, rest)
    ensures Canonical(l, from, BytesRecord(8 * num + 2, p) + rest)
  {
    hide ReadField, OnlyUnknown, Tight;
    var tag := 8 * num + 2;
    var r := BytesRecord(tag, p);
    ReadBytesRecord(KindOf(l), tag, p, rest);
    TightRecord(tag, |p|, p + rest);
    assert r + rest == [tag] + Varint(|p|) + (p + rest);
    assert (r + rest)[|r|..] == rest;
  }

  lemma WriteText(l: Layout, from: int, num: int, p: bytes, rest: bytes)
    requires Declares(l, num) && from <= num && l.fields[num] == Text && |OptBytes(8 * num + 2, p)| < TWO_63
    requires Canonical(l, num + 1, rest)
    ensures Canonical(l, from, OptBytes(8 * num + 2, p) + rest)
  {
    hide Canonical;
    if p == [] {
      assert [] + rest == rest;
      CanonicalFromLess(l, num + 1, from, rest);
    } else {
      WriteBytes(l, from, num, p, rest);
    }
  }

  lemma WriteMessage(l: Layout, from: int, num: int, o: Option<bytes>, rest: bytes)
    requires Declares(l, num) && from <= num && l.fields[num].Message? && |OptMessage(8 * num + 2, o)| < TWO_63
    requires o.Some? ==> Canonical(l.fields[num].layout, 0, o.value)
    requires Canonical(l, num + 1, rest)
    ensures Canonical(l, from, OptMessage(8 * num + 2, o) + rest)
  {
    hide Canonical;
    match o
    case None =>
      assert [] + rest == rest;
      CanonicalFromLess(l, num + 1, from, rest);
    case Some(p) => WriteBytes(l, from, num, p, rest);
  }

  lemma {:induction false} WriteRepeated(l: Layout, from: int, num: int, ps: seq<bytes>, rest: bytes)
    requires Declares(l, num) && from <= num && (l.fields[num].Texts? || l.fields[num].Many?)
    requires l.fields[num].Many? ==> forall p :: p in ps ==> Canonical(l.fields[num].layout, 0, p)
    requires |RepeatedBytes(8 * num + 2, ps)| < TWO_63
    requires Canonical(l, num + 1, rest)
    ensures Canonical(l, from, RepeatedBytes(8 * num + 2, ps) + rest)
    decreases |ps|
  {
    hide Canonical, BytesRecord;
    var tag := 8 * num + 2;
    if ps == [] {
      assert [] + rest == rest;
      CanonicalFromLess(l, num + 1, from, rest);
    } else {
      var tail := RepeatedBytes(tag, ps[1..]) + rest;
      assert RepeatedBytes(tag, ps) + rest == BytesRecord(tag, ps[0]) + tail;
      WriteRepeated(l, num, num, ps[1..], rest);
      WriteBytes(l, from, num, ps[0], tail);
    }
  }

  /** Unknown bytes may stand at the end of any message. */
  lemma WriteUnknown(l: Layout, from: int, kind: int -> Kind, u: bytes)
    requires OnlyUnknown(kind, u) && forall num :: kind(num) == KindOf(l)(num)
    ensures Canonical(l, from, u)
  {
    SameUnknown(kind, KindOf(l), u);
    hide ReadField;
  }

  lemma {:induction false} SameUnknown(k: int -> Kind, k': int -> Kind, u: bytes)
    requires forall num :: k(num) == k'(num)
    ensures OnlyUnknown(k, u) <==> OnlyUnknown(k', u)
    decreases |u|
  {
    if u != [] {
      assert ReadField(k, u) == ReadField(k', u);
      hide ReadField;
      var r := ReadField(k, u);
      if r.Some? { SameUnknown(k, k', u[r.value.1..]); }
    }
  }

  // ---- what is canonical was written, piece by piece ----

  /** No field before `num` is left from `from` on. */
  predicate Next(l: Layout, from: int, num: int) {
    from <= num && forall k :: k in l.fields && from <= k ==> num <= k
  }

  lemma TagOf(bs: bytes, num: int, wireType: int)
    requires Tight(bs) && ReadVarint(bs).Some?
    requires var wire := ReadVarint(bs).value.0; FieldNumber(wire) == num && wire % 8 == wireType
    ensures bs[0] == 8 * num + wireType && ReadVarint(bs).value.1 == 1
  {
  }

  lemma ScalarRecord(l: Layout, num: int, v: uint64, n: nat, bs: bytes)
    requires Tight(bs) && ReadField(KindOf(l), bs) == Some((VarintField(num, v), n))
    ensures bs == VarintRecord(8 * num, v) + bs[n..]
  {
    hide Shortest;
    TagOf(bs, num, 0);
    ShortestIsVarint(bs[1..]);
    assert bs == [bs[0]] + bs[1..][..n - 1] + bs[n..];
  }

  lemma PeelScalar(l: Layout, from: int, num: int, bs: bytes) returns (v: uint64, rest: bytes)
    requires Declares(l, num) && Next(l, from, num) && l.fields[num].Scalar? && Canonical(l, from, bs)
    ensures bs == OptVarint(8 * num, v) + rest
    ensures Canonical(l, num + 1, rest) && Fits(l.fields[num].width, v) && |rest| <= |bs|
  {
    hide OnlyUnknown, Tight, ReadField, VarintRecord;
    var r := ReadField(KindOf(l), bs);
    if bs != [] && r.Some? && r.value.0.VarintField? && r.value.0.num == num {
      v, rest := r.value.0.bits, bs[r.value.1..];
      ScalarRecord(l, num, v, r.value.1, bs);
    } else {
      v, rest := 0, bs;
      assert [] + rest == rest;
    }
  }

  /** The next field is `num`, and a byte string or message. */
  predicate Ahead(l: Layout, num: int, bs: bytes) {
    var r := ReadField(KindOf(l), bs);
    r.Some? && r.value.0.BytesField? && r.value.0.num == num
  }

  lemma NotAhead(l: Layout, from: int, num: int, bs: bytes)
    requires Declares(l, num) && Next(l, from, num) && !l.fields[num].Scalar? && Canonical(l, from, bs)
    requires !Ahead(l, num, bs)
    ensures Canonical(l, num + 1, bs)
  {
    hide OnlyUnknown, Tight;
  }

  lemma PeelBytes(l: Layout, num: int, bs: bytes) returns (p: bytes, rest: bytes)
    requires Declares(l, num) && Ahead(l, num, bs) && Tight(bs)
    ensures bs == BytesRecord(8 * num + 2, p) + rest && |rest| < |bs| && |p| < |bs|
    ensures ReadField(KindOf(l), bs) == Some((BytesField(num, p), |bs| - |rest|)) && bs[|bs| - |rest|..] == rest
  {
    hide Shortest;
    var r := ReadField(KindOf(l), bs);
    var n := r.value.1;
    p, rest := r.value.0.payload, bs[n..];
    TagOf(bs, num, 2);
    ShortestIsVarint(bs[1..]);
    var (lo, hi) := ReadLength(bs[1..]).value;
    assert bs == [bs[0]] + bs[1..][..lo] + bs[1 + lo..1 + hi] + bs[n..];
  }

  lemma CanonicalAhead(l: Layout, from: int, num: int, bs: bytes, p: bytes, rest: bytes)
    requires Canonical(l, from, bs) && Ahead(l, num, bs)
    requires ReadField(KindOf(l), bs) == Some((BytesField(num, p), |bs| - |rest|)) && |rest| < |bs|
    requires bs[|bs| - |rest|..] == rest
    ensures num in l.fields && Tight(bs)
    ensures match l.fields[num]
      case Scalar(_) => false
      case Text => p != [] && Canonical(l, num + 1, rest)
      case Texts => Canonical(l, num, rest)
      case Message(sub) => Canonical(sub, 0, p) && Canonical(l, num + 1, rest)
      case Many(sub) => Canonical(sub, 0, p) && Canonical(l, num, rest)
  {
    hide ReadField, OnlyUnknown, Tight;
  }

  lemma AheadIsTight(l: Layout, from: int, num: int, bs: bytes)
    requires Canonical(l, from, bs) && Ahead(l, num, bs)
    ensures Tight(bs)
  {
    hide ReadField, OnlyUnknown, Tight;
  }

  lemma PeelText(l: Layout, from: int, num: int, bs: bytes) returns (p: bytes, rest: bytes)
    requires Declares(l, num) && Next(l, from, num) && l.fields[num] == Text && Canonical(l, from, bs)
    ensures bs == OptBytes(8 * num + 2, p) + rest && Canonical(l, num + 1, rest) && |rest| <= |bs|
  {
    hide Canonical, Ahead, Tight, ReadField, BytesRecord;
    if Ahead(l, num, bs) {
      AheadIsTight(l, from, num, bs);
      p, rest := PeelBytes(l, num, bs);
      CanonicalAhead(l, from, num, bs, p, rest);
    } else {
      p, rest := [], bs;
      NotAhead(l, from, num, bs);
      assert [] + rest == rest;
    }
  }

  lemma PeelMessage(l: Layout, from: int, num: int, bs: bytes) returns (o: Option<bytes>, rest: bytes)
    requires Declares(l, num) && Next(l, from, num) && l.fields[num].Message? && Canonical(l, from, bs)
    ensures bs == OptMessage(8 * num + 2, o) + rest && Canonical(l, num + 1, rest) && |rest| <= |bs|
    ensures o.Some? ==> Canonical(l.fields[num].layout, 0, o.value) && |o.value| < |bs|
  {
    hide Canonical, Ahead, Tight, ReadField, BytesRecord;
    if Ahead(l, num, bs) {
      AheadIsTight(l, from, num, bs);
      var p;
      p, rest := PeelBytes(l, num, bs);
      CanonicalAhead(l, from, num, bs, p, rest);
      o := Some(p);
    } else {
      o, rest := None, bs;
      NotAhead(l, from, num, bs);
      assert [] + rest == rest;
    }
  }

  lemma {:induction false} PeelRepeated(l: Layout, from: int, num: int, bs: bytes) returns (ps: seq<bytes>, rest: bytes)
    requires Declares(l, num) && Next(l, from, num) && (l.fields[num].Texts? || l.fields[num].Many?)
    requires Canonical(l, from, bs)
    ensures bs == RepeatedBytes(8 * num + 2, ps) + rest && Canonical(l, num + 1, rest) && |rest| <= |bs|
    ensures forall p :: p in ps ==> |p| < |bs|
    ensures l.fields[num].Many? ==> forall p :: p in ps ==> Canonical(l.fields[num].layout, 0, p)
    decreases |bs|
  {
    hide Canonical, Ahead, Tight, ReadField, BytesRecord;
    if Ahead(l, num, bs) {
      AheadIsTight(l, from, num, bs);
      var p, tail := PeelBytes(l, num, bs);
      CanonicalAhead(l, from, num, bs, p, tail);
      var qs;
      qs, rest := PeelRepeated(l, num, num, tail);
      ps := [p] + qs;
      assert ps[1..] == qs;
    } else {
      ps, rest := [], bs;
      NotAhead(l, from, num, bs);
      assert [] + rest == rest;
    }
  }

  lemma PeelUnknown(l: Layout, from: int, kind: int -> Kind, u: bytes)
    requires Canonical(l, from, u) && forall num :: num in l.fields ==> num < from
    requires forall num :: kind(num) == KindOf(l)(num)
    ensures OnlyUnknown(kind, u)
  {
    SameUnknown(kind, KindOf(l), u);
    hide Tight;
  }

  // ---- the six messages ----

  lemma TimestampIsCanonical(m: Timestamp)
    requires TimestampOk(m)
    ensures Canonical(TIMESTAMP, 0, EncodeTimestamp(m))
  {
    hide Canonical, OnlyUnknown, OptVarint;
    WriteUnknown(TIMESTAMP, 3, TimestampKind, m.unknown);
    WriteScalar(TIMESTAMP, 2, 2, ToUint64(m.nanos), m.unknown);
    WriteScalar(TIMESTAMP, 0, 1, ToUint64(m.seconds), OptVarint(0x10, ToUint64(m.nanos)) + m.unknown);
  }

  lemma CanonicalTimestamp(bs: bytes) returns (m: Timestamp)
    requires Canonical(TIMESTAMP, 0, bs)
    ensures TimestampOk(m) && bs == EncodeTimestamp(m)
  {
    hide Canonical, OnlyUnknown, OptVarint;
    var seconds, r1 := PeelScalar(TIMESTAMP, 0, 1, bs);
    var nanos, u := PeelScalar(TIMESTAMP, 2, 2, r1);
    PeelUnknown(TIMESTAMP, 3, TimestampKind, u);
    m := Timestamp(ToInt64(seconds), ToInt32(nanos), u);
  }

  /** Of all byte strings that decode to a timestamp, its encoding is the canonical one. */
  lemma TimestampForm(m: Timestamp, bs: bytes)
    requires TimestampOk(m) && |bs| < TWO_63
    ensures bs == EncodeTimestamp(m) <==>
      Decode(TimestampSchema, NO_TIMESTAMP, bs) == Some(m) && Canonical(TIMESTAMP, 0, bs)
  {
    hide Canonical, OnlyUnknown, OptVarint, Decode, EncodeTimestamp, TimestampOk;
    TimestampIsCanonical(m);
    TimestampRoundTrip(m);
    if Canonical(TIMESTAMP, 0, bs) {
      var r := CanonicalTimestamp(bs);
      TimestampRoundTrip(r);
    }
  }

  lemma HeaderIsCanonical(m: Header)
    requires HeaderOk(m) && |EncodeHeader(m)| < TWO_63
    ensures Canonical(HEADER, 0, EncodeHeader(m))
  {
    hide Canonical, OnlyUnknown, OptVarint, OptBytes;
    var r4 := OptVarint(0x28, m.baseReserve) + m.unknown;
    var r3 := OptVarint(0x20, m.baseFee) + r4;
    var r2 := OptVarint(0x18, ToUint64(m.totalCoins)) + r3;
    WriteUnknown(HEADER, 6, HeaderKind, m.unknown);
    WriteScalar(HEADER, 5, 5, m.baseReserve, m.unknown);
    WriteScalar(HEADER, 4, 4, m.baseFee, r4);
    WriteScalar(HEADER, 3, 3, ToUint64(m.totalCoins), r3);
    WriteText(HEADER, 2, 2, m.previousLedgerHash, r2);
    WriteScalar(HEADER, 0, 1, m.ledgerVersion, OptBytes(0x12, m.previousLedgerHash) + r2);
  }

  lemma CanonicalHeader(bs: bytes) returns (m: Header)
    requires Canonical(HEADER, 0, bs)
    ensures HeaderOk(m) && bs == EncodeHeader(m)
  {
    hide Canonical, OnlyUnknown, OptVarint, OptBytes;
    var version, r1 := PeelScalar(HEADER, 0, 1, bs);
    var hash, r2 := PeelText(HEADER, 2, 2, r1);
    var coins, r3 := PeelScalar(HEADER, 3, 3, r2);
    var fee, r4 := PeelScalar(HEADER, 4, 4, r3);
    var reserve, u := PeelScalar(HEADER, 5, 5, r4);
    PeelUnknown(HEADER, 6, HeaderKind, u);
    m := Header(version, hash, ToInt64(coins), fee, reserve, u);
  }

  lemma HeaderForm(m: Header, bs: bytes)
    requires HeaderOk(m) && |bs| < TWO_63
    ensures bs == EncodeHeader(m) <==>
      Decode(HeaderSchema, NO_HEADER, bs) == Some(m) && Canonical(HEADER, 0, bs)
  {
    hide Canonical, Decode, EncodeHeader, HeaderOk;
    if bs == EncodeHeader(m) {
      HeaderIsCanonical(m);
      HeaderRoundTrip(m);
    } else if Canonical(HEADER, 0, bs) {
      var r := CanonicalHeader(bs);
      HeaderRoundTrip(r);
    }
  }

  lemma ContractEventIsCanonical(m: ContractEvent)
    requires ContractEventOk(m) && |EncodeContractEvent(m)| < TWO_63
    ensures Canonical(CONTRACT_EVENT, 0, EncodeContractEvent(m))
  {
    hide Canonical, OnlyUnknown, RepeatedBytes;
    WriteUnknown(CONTRACT_EVENT, 2, ContractEventKind, m.unknown);
    WriteRepeated(CONTRACT_EVENT, 0, 1, m.events, m.unknown);
  }

  lemma CanonicalContractEvent(bs: bytes) returns (m: ContractEvent)
    requires Canonical(CONTRACT_EVENT, 0, bs)
    ensures ContractEventOk(m) && bs == EncodeContractEvent(m)
  {
    hide Canonical, OnlyUnknown, RepeatedBytes;
    var events, u := PeelRepeated(CONTRACT_EVENT, 0, 1, bs);
    PeelUnknown(CONTRACT_EVENT, 2, ContractEventKind, u);
    m := ContractEvent(events, u);
  }

  lemma ContractEventForm(m: ContractEvent, bs: bytes)
    requires ContractEventOk(m) && |bs| < TWO_63
    ensures bs == EncodeContractEvent(m) <==>
      Decode(ContractEventSchema, NO_CONTRACT_EVENT, bs) == Some(m) && Canonical(CONTRACT_EVENT, 0, bs)
  {
    hide Canonical, Decode, EncodeContractEvent, ContractEventOk;
    if bs == EncodeContractEvent(m) {
      ContractEventIsCanonical(m);
      ContractEventRoundTrip(m);
    } else if Canonical(CONTRACT_EVENT, 0, bs) {
      var r := CanonicalContractEvent(bs);
      ContractEventRoundTrip(r);
    }
  }

  /** The payloads of a repeated contract event group. */
  lemma {:induction false} GroupsAreCanonical(cs: seq<ContractEvent>) returns (ps: seq<bytes>)
    requires (forall c :: c in cs ==> ContractEventOk(c)) && |RepeatedContractEvents(cs)| < TWO_63
    ensures RepeatedContractEvents(cs) == RepeatedBytes(0x1a, ps)
    ensures forall p :: p in ps ==> Canonical(CONTRACT_EVENT, 0, p)
    decreases |cs|
  {
    hide Canonical, ContractEventOk, EncodeContractEvent, BytesRecord;
    if cs == [] {
      ps := [];
    } else {
      ContractEventIsCanonical(cs[0]);
      var qs := GroupsAreCanonical(cs[1..]);
      ps := [EncodeContractEvent(cs[0])] + qs;
      assert ps[1..] == qs;
    }
  }

  lemma {:induction false} CanonicalGroups(ps: seq<bytes>) returns (cs: seq<ContractEvent>)
    requires forall p :: p in ps ==> Canonical(CONTRACT_EVENT, 0, p)
    ensures RepeatedContractEvents(cs) == RepeatedBytes(0x1a, ps)
    ensures forall c :: c in cs ==> ContractEventOk(c)
  {
    hide Canonical, ContractEventOk, EncodeContractEvent, BytesRecord;
    if ps == [] {
      cs := [];
    } else {
      var c := CanonicalContractEvent(ps[0]);
      var ds := CanonicalGroups(ps[1..]);
      cs := [c] + ds;
      assert cs[1..] == ds;
    }
  }

  lemma EventsAreCanonical(m: Events)
    requires EventsOk(m) && |EncodeEvents(m)| < TWO_63
    ensures Canonical(EVENTS, 0, EncodeEvents(m))
  {
    hide Canonical, OnlyUnknown, RepeatedBytes, RepeatedContractEvents, ContractEventOk;
    var ps := GroupsAreCanonical(m.contract);
    var r2 := RepeatedBytes(0x1a, ps) + m.unknown;
    WriteUnknown(EVENTS, 4, EventsKind, m.unknown);
    WriteRepeated(EVENTS, 3, 3, ps, m.unknown);
    WriteRepeated(EVENTS, 2, 2, m.transaction, r2);
    WriteRepeated(EVENTS, 0, 1, m.diagnostic, RepeatedBytes(0x12, m.transaction) + r2);
  }

  lemma CanonicalEvents(bs: bytes) returns (m: Events)
    requires Canonical(EVENTS, 0, bs)
    ensures EventsOk(m) && bs == EncodeEvents(m)
  {
    hide Canonical, OnlyUnknown, RepeatedBytes, RepeatedContractEvents, ContractEventOk;
    var diagnostic, r1 := PeelRepeated(EVENTS, 0, 1, bs);
    var transaction, r2 := PeelRepeated(EVENTS, 2, 2, r1);
    var ps, u := PeelRepeated(EVENTS, 3, 3, r2);
    PeelUnknown(EVENTS, 4, EventsKind, u);
    var contract := CanonicalGroups(ps);
    m := Events(diagnostic, transaction, contract, u);
  }

  lemma EventsForm(m: Events, bs: bytes)
    requires EventsOk(m) && |bs| < TWO_63
    ensures bs == EncodeEvents(m) <==>
      Decode(EventsSchema, NO_EVENTS, bs) == Some(m) && Canonical(EVENTS, 0, bs)
  {
    hide Canonical, Decode, EncodeEvents, EventsOk;
    if bs == EncodeEvents(m) {
      EventsAreCanonical(m);
      EventsRoundTrip(m);
    } else if Canonical(EVENTS, 0, bs) {
      var r := CanonicalEvents(bs);
      EventsRoundTrip(r);
    }
  }

  lemma StampIsCanonical(o: Option<Timestamp>) returns (p: Option<bytes>)
    requires o.Some? ==> TimestampOk(o.value)
    ensures forall tag: byte :: EncodeOptTimestamp(tag, o) == OptMessage(tag, p)
    ensures p.Some? ==> Canonical(TIMESTAMP, 0, p.value)
  {
    hide Canonical, TimestampOk, EncodeTimestamp, BytesRecord;
    match o
    case None => p := None;
    case Some(t) =>
      TimestampIsCanonical(t);
      p := Some(EncodeTimestamp(t));
  }

  lemma CanonicalStamp(p: Option<bytes>) returns (o: Option<Timestamp>)
    requires p.Some? ==> Canonical(TIMESTAMP, 0, p.value)
    ensures forall tag: byte :: EncodeOptTimestamp(tag, o) == OptMessage(tag, p)
    ensures o.Some? ==> TimestampOk(o.value)
  {
    hide Canonical, TimestampOk, EncodeTimestamp, BytesRecord;
    match p
    case None => o := None;
    case Some(bs) =>
      var t := CanonicalTimestamp(bs);
      o := Some(t);
  }

  lemma TransactionIsCanonical(m: Transaction)
    requires TransactionOk(m) && |EncodeTransaction(m)| < TWO_63
    ensures Canonical(TRANSACTION, 0, EncodeTransaction(m))
  {
    hide Canonical, OnlyUnknown, OptVarint, OptBytes, OptMessage;
    hide EncodeOptTimestamp, TimestampOk, EncodeEvents, EventsOk;
    var stamp := StampIsCanonical(m.createdAt);
    if m.events.Some? { EventsAreCanonical(m.events.value); }
    var events := match m.events case None => None case Some(e) => Some(EncodeEvents(e));
    var r6 := OptMessage(0x4a, events) + m.unknown;
    var r5 := OptBytes(0x42, m.resultXdr) + r6;
    var r4 := OptBytes(0x32, m.envelopeXdr) + r5;
    var r3 := OptVarint(0x28, m.applicationOrder) + r4;
    var r2 := OptMessage(0x1a, stamp) + r3;
    var r1 := OptVarint(0x10, ToUint64(m.status)) + r2;
    WriteUnknown(TRANSACTION, 10, TransactionKind, m.unknown);
    WriteMessage(TRANSACTION, 9, 9, events, m.unknown);
    WriteText(TRANSACTION, 7, 8, m.resultXdr, r6);
    WriteText(TRANSACTION, 6, 6, m.envelopeXdr, r5);
    WriteScalar(TRANSACTION, 4, 5, m.applicationOrder, r4);
    WriteMessage(TRANSACTION, 3, 3, stamp, r3);
    WriteScalar(TRANSACTION, 2, 2, ToUint64(m.status), r2);
    WriteText(TRANSACTION, 0, 1, m.hash, r1);
  }

  lemma CanonicalTransaction(bs: bytes) returns (m: Transaction)
    requires Canonical(TRANSACTION, 0, bs)
    ensures TransactionOk(m) && bs == EncodeTransaction(m)
  {
    hide Canonical, OnlyUnknown, OptVarint, OptBytes, OptMessage;
    hide EncodeOptTimestamp, TimestampOk, EncodeEvents, EventsOk;
    var hash, r1 := PeelText(TRANSACTION, 0, 1, bs);
    var status, r2 := PeelScalar(TRANSACTION, 2, 2, r1);
    var stamp, r3 := PeelMessage(TRANSACTION, 3, 3, r2);
    var order, r4 := PeelScalar(TRANSACTION, 4, 5, r3);
    var envelope, r5 := PeelText(TRANSACTION, 6, 6, r4);
    var result, r6 := PeelText(TRANSACTION, 7, 8, r5);
    var payload, u := PeelMessage(TRANSACTION, 9, 9, r6);
    PeelUnknown(TRANSACTION, 10, TransactionKind, u);
    var createdAt := CanonicalStamp(stamp);
    var events := None;
    if payload.Some? {
      var e := CanonicalEvents(payload.value);
      events := Some(e);
    }
    m := Transaction(hash, ToInt32(status), createdAt, order, envelope, result, events, u);
  }

  lemma TransactionForm(m: Transaction, bs: bytes)
    requires TransactionOk(m) && |bs| < TWO_63
    ensures bs == EncodeTransaction(m) <==>
      Decode(TransactionSchema, NO_TRANSACTION, bs) == Some(m) && Canonical(TRANSACTION, 0, bs)
  {
    hide Canonical, Decode, EncodeTransaction, TransactionOk;
    if bs == EncodeTransaction(m) {
      TransactionIsCanonical(m);
      TransactionRoundTrip(m);
    } else if Canonical(TRANSACTION, 0, bs) {
      var r := CanonicalTransaction(bs);
      TransactionRoundTrip(r);
    }
  }

  lemma {:induction false} TransactionsAreCanonical(ts: seq<Transaction>) returns (ps: seq<bytes>)
    requires (forall t :: t in ts ==> TransactionOk(t)) && |RepeatedTransactions(ts)| < TWO_63
    ensures RepeatedTransactions(ts) == RepeatedBytes(0x32, ps)
    ensures forall p :: p in ps ==> Canonical(TRANSACTION, 0, p)
    decreases |ts|
  {
    hide Canonical, TransactionOk, EncodeTransaction, BytesRecord;
    if ts == [] {
      ps := [];
    } else {
      TransactionIsCanonical(ts[0]);
      var qs := TransactionsAreCanonical(ts[1..]);
      ps := [EncodeTransaction(ts[0])] + qs;
      assert ps[1..] == qs;
    }
  }

  lemma {:induction false} CanonicalTransactions(ps: seq<bytes>) returns (ts: seq<Transaction>)
    requires forall p :: p in ps ==> Canonical(TRANSACTION, 0, p)
    ensures RepeatedTransactions(ts) == RepeatedBytes(0x32, ps)
    ensures forall t :: t in ts ==> TransactionOk(t)
  {
    hide Canonical, TransactionOk, EncodeTransaction, BytesRecord;
    if ps == [] {
      ts := [];
    } else {
      var t := CanonicalTransaction(ps[0]);
      var us := CanonicalTransactions(ps[1..]);
      ts := [t] + us;
      assert ts[1..] == us;
    }
  }

  lemma BlockIsCanonical(m: Block)
    requires BlockOk(m) && |EncodeBlock(m)| < TWO_63
    ensures Canonical(BLOCK, 0, EncodeBlock(m))
  {
    hide Canonical, OnlyUnknown, OptVarint, OptBytes, OptMessage, RepeatedBytes, RepeatedTransactions;
    hide EncodeOptTimestamp, TimestampOk, EncodeHeader, HeaderOk, TransactionOk;
    var stamp := StampIsCanonical(m.createdAt);
    if m.header.Some? { HeaderIsCanonical(m.header.value); }
    var header := match m.header case None => None case Some(h) => Some(EncodeHeader(h));
    var ps := TransactionsAreCanonical(m.transactions);
    var r5 := OptMessage(0x4a, stamp) + m.unknown;
    var r4 := RepeatedBytes(0x32, ps) + r5;
    var r3 := OptVarint(0x20, ToUint64(m.version)) + r4;
    var r2 := OptMessage(0x1a, header) + r3;
    var r1 := OptBytes(0x12, m.hash) + r2;
    WriteUnknown(BLOCK, 10, BlockKind, m.unknown);
    WriteMessage(BLOCK, 7, 9, stamp, m.unknown);
    WriteRepeated(BLOCK, 5, 6, ps, r5);
    WriteScalar(BLOCK, 4, 4, ToUint64(m.version), r4);
    WriteMessage(BLOCK, 3, 3, header, r3);
    WriteText(BLOCK, 2, 2, m.hash, r2);
    WriteScalar(BLOCK, 0, 1, m.number, r1);
  }

  lemma CanonicalBlock(bs: bytes) returns (m: Block)
    requires Canonical(BLOCK, 0, bs)
    ensures BlockOk(m) && bs == EncodeBlock(m)
  {
    hide Canonical, OnlyUnknown, OptVarint, OptBytes, OptMessage, RepeatedBytes, RepeatedTransactions;
    hide EncodeOptTimestamp, TimestampOk, EncodeHeader, HeaderOk, TransactionOk;
    var number, r1 := PeelScalar(BLOCK, 0, 1, bs);
    var hash, r2 := PeelText(BLOCK, 2, 2, r1);
    var payload, r3 := PeelMessage(BLOCK, 3, 3, r2);
    var version, r4 := PeelScalar(BLOCK, 4, 4, r3);
    var ps, r5 := PeelRepeated(BLOCK, 5, 6, r4);
    var stamp, u := PeelMessage(BLOCK, 7, 9, r5);
    PeelUnknown(BLOCK, 10, BlockKind, u);
    var transactions := CanonicalTransactions(ps);
    var createdAt := CanonicalStamp(stamp);
    var header := None;
    if payload.Some? {
      var h := CanonicalHeader(payload.value);
      header := Some(h);
    }
    m := Block(number, hash, header, ToInt64(version), transactions, createdAt, u);
  }

  /** Of all byte strings that decode to a block, its encoding is the canonical one. */
  lemma BlockForm(m: Block, bs: bytes)
    requires BlockOk(m) && |bs| < TWO_63
    ensures bs == EncodeBlock(m) <==> DecodeBlock(bs) == Some(m) && Canonical(BLOCK, 0, bs)
  {
    hide Canonical, Decode, EncodeBlock, BlockOk;
    if bs == EncodeBlock(m) {
      BlockIsCanonical(m);
      BlockRoundTrip(m);
    } else if Canonical(BLOCK, 0, bs) {
      var r := CanonicalBlock(bs);
      BlockRoundTrip(r);
    }
  }
}
