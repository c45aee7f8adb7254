/**
 The wire format every message shares: tags, varint and length-delimited fields, unknown
 fields kept as raw bytes, and a decoder over any message type.
 */
module Wire {
  import opened Base
  import opened Varints

  /** What a message does with a field number: a scalar, a byte string or sub-message, or nothing. */
  datatype Kind = VarintKind | BytesKind | UnknownKind

  datatype Field =
    | VarintField(num: int, bits: uint64)
    | BytesField(num: int, payload: bytes)
    | UnknownField(raw: bytes)

  /** A length prefix and the bytes it announces: where those start and where they end. */
  function ReadLength(bs: bytes): (r: Option<(nat, nat)>)
    ensures r.Some? ==> 1 <= r.value.0 <= r.value.1 <= |bs|
  {
    match ReadVarint(bs)
    case None => None
    case Some((len, n)) => if len < TWO_63 && n + len <= |bs| then Some((n, n + len)) else None
  }

  /** The bytes after a tag that a field of this wire type takes. */
  function PayloadSize(wireType: int, bs: bytes): (r: Option<nat>)
    ensures r.Some? ==> r.value <= |bs|
  {
    if wireType == 0 then
      match ReadVarint(bs) { case None => None case Some((v, n)) => Some(n) }
    else if wireType == 1 then if 8 <= |bs| then Some(8) else None
    else if wireType == 2 then
      match ReadLength(bs) { case None => None case Some((lo, hi)) => Some(hi) }
    else if wireType == 3 || wireType == 4 then Some(0)
    else if wireType == 5 then if 4 <= |bs| then Some(4) else None
    else None
  }

  /** Open groups after a tag of this wire type; None closes a group that is not open. */
  function Nesting(wireType: int, depth: nat): Option<nat> {
    if wireType == 3 then Some(depth + 1)
    else if wireType == 4 then if depth == 0 then None else Some(depth - 1)
    else Some(depth)
  }

  /** One tag and its payload: the bytes they take and the groups then open. */
  function SkipOne(bs: bytes, depth: nat): (r: Option<(nat, nat)>)
    ensures r.Some? ==> 1 <= r.value.0 <= |bs|
  {
    match ReadVarint(bs)
    case None => None
    case Some((wire, n)) =>
      match (PayloadSize(wire % 8, bs[n..]), Nesting(wire % 8, depth))
      case (Some(p), Some(open)) => Some((n + p, open))
      case _ => None
  }

  /** Size of the field at the head of `bs`, groups included, when `depth` groups are open. */
  function SkipFrom(bs: bytes, depth: nat): (r: Option<nat>)
    ensures r.Some? ==> 1 <= r.value <= |bs|
    decreases |bs|
  {
    match SkipOne(bs, depth)
    case None => None
    case Some((n, open)) =>
      if open == 0 then Some(n)
      else
        match SkipFrom(bs[n..], open)
        case None => None
        case Some(k) => Some(n + k)
  }

  function Skip(bs: bytes): (r: Option<nat>)
    ensures r.Some? ==> 1 <= r.value <= |bs|
  {
    SkipFrom(bs, 0)
  }

  function FieldNumber(wire: uint64): int32 { ToInt32(wire / 8) }

  /** The field at the head of `bs` and its size, read the way a message with these kinds reads it. */
  function ReadField(kind: int -> Kind, bs: bytes): (r: Option<(Field, nat)>)
    ensures r.Some? ==> 1 <= r.value.1 <= |bs|
    ensures r.Some? ==>
      match r.value.0
      case VarintField(num, _) => kind(num) == VarintKind
      case BytesField(num, _) => kind(num) == BytesKind
      case UnknownField(raw) => raw == bs[..r.value.1]
  {
    match ReadVarint(bs)
    case None => None
    case Some((wire, n)) =>
      var num := FieldNumber(wire);
      if wire % 8 == 4 || num <= 0 then None
      else match kind(num)
        case VarintKind =>
          if wire % 8 != 0 then None
          else (match ReadVarint(bs[n..]) case None => None case Some((v, k)) => Some((VarintField(num, v), n + k)))
        case BytesKind =>
          if wire % 8 != 2 then None
          else (match ReadLength(bs[n..])
                case None => None
                case Some((lo, hi)) => Some((BytesField(num, bs[n + lo..n + hi]), n + hi)))
        case UnknownKind =>
          (match Skip(bs) case None => None case Some(k) => Some((UnknownField(bs[..k]), k)))
  }

  /**
   Known or not, a field takes the bytes that skipping it would take. It is refused exactly
   when it cannot be skipped, its number is not positive, or it is known under another wire
   type.
   */
  lemma ReadsWhatSkipSkips(kind: int -> Kind, bs: bytes)
    ensures ReadField(kind, bs).Some? <==>
      && Skip(bs).Some?
      && var wire := ReadVarint(bs).value.0;
         var num := FieldNumber(wire);
         && 0 < num
         && (kind(num) == VarintKind ==> wire % 8 == 0)
         && (kind(num) == BytesKind ==> wire % 8 == 2)
    ensures ReadField(kind, bs).Some? ==> Skip(bs) == Some(ReadField(kind, bs).value.1)
  {
    hide ReadVarint;
  }

  /** How a message type reads: its known fields, merging one of them in, keeping unknown bytes. */
  datatype Schema<!M> = Schema(
    kind: int -> Kind,
    merge: (M, Field) -> Option<M>,
    keep: (M, bytes) -> M)

  function Absorb<M>(s: Schema<M>, m: M, f: Field): Option<M> {
    match f
    case UnknownField(raw) => Some(s.keep(m, raw))
    case _ => s.merge(m, f)
  }

  /** Decoding `bs` into `m`, field by field; None is any of the decoder's errors. */
  function Decode<M>(s: Schema<M>, m: M, bs: bytes): Option<M>
    decreases |bs|
  {
    if bs == [] then Some(m)
    else
      match ReadField(s.kind, bs)
      case None => None
      case Some((f, n)) =>
        match Absorb(s, m, f)
        case None => None
        case Some(m') => Decode(s, m', bs[n..])
  }

  // ---- locality: a field is read from its own bytes only ----

  /** `cs` starts with the first `n` bytes of `bs`. */
  predicate SamePrefix(bs: bytes, cs: bytes, n: nat) {
    n <= |bs| && n <= |cs| && bs[..n] == cs[..n]
  }

  lemma SamePrefixShorter(bs: bytes, cs: bytes, n: nat, k: nat)
    requires SamePrefix(bs, cs, n) && k <= n
    ensures SamePrefix(bs, cs, k)
    ensures SamePrefix(bs[k..], cs[k..], n - k)
  {
    assert bs[..k] == bs[..n][..k];
    assert cs[..k] == cs[..n][..k];
    assert bs[k..][..n - k] == bs[..n][k..];
    assert cs[k..][..n - k] == cs[..n][k..];
  }

  lemma ReadLengthLocal(bs: bytes, cs: bytes)
    requires ReadLength(bs).Some? && SamePrefix(bs, cs, ReadLength(bs).value.1)
    ensures ReadLength(cs) == ReadLength(bs)
  {
    SamePrefixShorter(bs, cs, ReadLength(bs).value.1, ReadLength(bs).value.0);
    ReadVarintLocal(bs, cs);
  }

  lemma PayloadSizeLocal(wireType: int, bs: bytes, cs: bytes)
    requires PayloadSize(wireType, bs).Some? && SamePrefix(bs, cs, PayloadSize(wireType, bs).value)
    ensures PayloadSize(wireType, cs) == PayloadSize(wireType, bs)
  {
    if wireType == 0 {
      ReadVarintLocal(bs, cs);
    } else if wireType == 2 {
      ReadLengthLocal(bs, cs);
    }
  }

  lemma SkipOneLocal(bs: bytes, cs: bytes, depth: nat)
    requires SkipOne(bs, depth).Some? && SamePrefix(bs, cs, SkipOne(bs, depth).value.0)
    ensures SkipOne(cs, depth) == SkipOne(bs, depth)
  {
    var (wire, n) := ReadVarint(bs).value;
    SamePrefixShorter(bs, cs, SkipOne(bs, depth).value.0, n);
    ReadVarintLocal(bs, cs);
    PayloadSizeLocal(wire % 8, bs[n..], cs[n..]);
  }

  lemma {:induction false} SkipFromLocal(bs: bytes, cs: bytes, depth: nat)
    requires SkipFrom(bs, depth).Some? && SamePrefix(bs, cs, SkipFrom(bs, depth).value)
    ensures SkipFrom(cs, depth) == SkipFrom(bs, depth)
    decreases |bs|
  {
    hide SkipOne;
    var (n, open) := SkipOne(bs, depth).value;
    SamePrefixShorter(bs, cs, SkipFrom(bs, depth).value, n);
    SkipOneLocal(bs, cs, depth);
    if open != 0 {
      SkipFromLocal(bs[n..], cs[n..], open);
    }
  }

  /** A field read from `bs` is read the same from any input that starts with its bytes. */
  lemma ReadFieldLocal(kind: int -> Kind, bs: bytes, cs: bytes)
    requires ReadField(kind, bs).Some? && SamePrefix(bs, cs, ReadField(kind, bs).value.1)
    ensures ReadField(kind, cs) == ReadField(kind, bs)
  {
    var (f, total) := ReadField(kind, bs).value;
    var (wire, n) := ReadVarint(bs).value;
    match kind(FieldNumber(wire)) {
      case VarintKind =>
        SamePrefixShorter(bs, cs, total, n);
        ReadVarintLocal(bs, cs);
        ReadVarintLocal(bs[n..], cs[n..]);
      case BytesKind =>
        SamePrefixShorter(bs, cs, total, n);
        ReadVarintLocal(bs, cs);
        ReadLengthLocal(bs[n..], cs[n..]);
        var (lo, hi) := ReadLength(bs[n..]).value;
        assert bs[n + lo..n + hi] == bs[..total][n + lo..];
        assert cs[n + lo..n + hi] == cs[..total][n + lo..];
      case UnknownKind =>
        SkipFromLocal(bs, cs, 0);
        SamePrefixShorter(bs, cs, total, n);
        ReadVarintLocal(bs, cs);
    }
  }

  // ---- concatenation is merge ----

  /**
   Decoding a concatenation is decoding the parts one after the other: later scalars win,
   repeated fields append, sub-messages merge, unknown bytes accumulate, and an error in
   the second part is an error of the whole.
   */
  lemma {:induction false} DecodeConcat<M>(s: Schema<M>, m: M, a: bytes, b: bytes)
    requires Decode(s, m, a).Some?
    ensures Decode(s, m, a + b) == Decode(s, Decode(s, m, a).value, b)
    decreases |a|
  {
    hide ReadField;
    if a == [] {
      assert a + b == b;
    } else {
      var (f, n) := ReadField(s.kind, a).value;
      assert (a + b)[..n] == a[..n];
      ReadFieldLocal(s.kind, a, a + b);
      assert (a + b)[n..] == a[n..] + b;
      DecodeConcat(s, Absorb(s, m, f).value, a[n..], b);
    }
  }

  // ---- unknown bytes that survive re-encoding ----

  /** `u` is a run of whole fields, none of which a message with these kinds knows. */
  predicate OnlyUnknown(kind: int -> Kind, u: bytes)
    decreases |u|
  {
    u == [] ||
    (var r := ReadField(kind, u);
     r.Some? && r.value.0.UnknownField? && OnlyUnknown(kind, u[r.value.1..]))
  }

  lemma {:induction false} OnlyUnknownConcat(kind: int -> Kind, a: bytes, b: bytes)
    requires OnlyUnknown(kind, a) && OnlyUnknown(kind, b)
    ensures OnlyUnknown(kind, a + b)
    decreases |a|
  {
    hide ReadField;
    if a == [] {
      assert a + b == b;
    } else {
      var (f, n) := ReadField(kind, a).value;
      assert (a + b)[..n] == a[..n];
      ReadFieldLocal(kind, a, a + b);
      assert (a + b)[n..] == a[n..] + b;
      OnlyUnknownConcat(kind, a[n..], b);
    }
  }

  /** What the decoder keeps of one unknown field is again an unknown field, whole. */
  lemma KeptFieldIsUnknown(kind: int -> Kind, bs: bytes)
    requires ReadField(kind, bs).Some? && ReadField(kind, bs).value.0.UnknownField?
    ensures OnlyUnknown(kind, ReadField(kind, bs).value.0.raw)
  {
    var (f, n) := ReadField(kind, bs).value;
    var raw := f.raw;
    assert raw == bs[..n] && raw[..n] == raw;
    ReadFieldLocal(kind, bs, raw);
    assert raw[n..] == [];
  }

  /** Kept bytes accumulate by concatenation. */
  ghost predicate Accumulates<M(!new)>(s: Schema<M>) {
    (forall m: M :: s.keep(m, []) == m) &&
    (forall m: M, a: bytes, b: bytes :: s.keep(s.keep(m, a), b) == s.keep(m, a + b))
  }

  lemma {:induction false} DecodeOnlyUnknown<M(!new)>(s: Schema<M>, m: M, u: bytes)
    requires Accumulates(s) && OnlyUnknown(s.kind, u)
    ensures Decode(s, m, u) == Some(s.keep(m, u))
    decreases |u|
  {
    hide ReadField;
    if u != [] {
      var (f, n) := ReadField(s.kind, u).value;
      assert f.raw == u[..n];
      DecodeOnlyUnknown(s, s.keep(m, f.raw), u[n..]);
      assert u == u[..n] + u[n..];
    }
  }

  // ---- invariants of decoded messages ----

  /** Fields as the decoder hands them to a message. */
  predicate WellRead(kind: int -> Kind, f: Field) {
    match f
    case VarintField(num, _) => kind(num) == VarintKind
    case BytesField(num, _) => kind(num) == BytesKind
    case UnknownField(raw) => OnlyUnknown(kind, raw)
  }

  ghost predicate Preserves<M(!new)>(s: Schema<M>, inv: M -> bool) {
    forall m: M, f: Field ::
      inv(m) && WellRead(s.kind, f) && Absorb(s, m, f).Some? ==> inv(Absorb(s, m, f).value)
  }

  lemma {:induction false} DecodePreserves<M(!new)>(s: Schema<M>, inv: M -> bool, m: M, bs: bytes)
    requires Preserves(s, inv) && inv(m) && Decode(s, m, bs).Some?
    ensures inv(Decode(s, m, bs).value)
    decreases |bs|
  {
    hide ReadField;
    if bs != [] {
      var (f, n) := ReadField(s.kind, bs).value;
      if f.UnknownField? { KeptFieldIsUnknown(s.kind, bs); }
      assert WellRead(s.kind, f);
      DecodePreserves(s, inv, Absorb(s, m, f).value, bs[n..]);
    }
  }

  // ---- encoding one field ----

  /** Tag bytes of field numbers below 16 fit in one byte. */
  function VarintRecord(tag: byte, v: uint64): bytes { [tag] + Varint(v) }

  function BytesRecord(tag: byte, payload: bytes): (r: bytes)
    ensures |r| > |payload|
  {
    [tag] + Varint(|payload|) + payload
  }

  /** Proto3 leaves out zero scalars and empty byte strings. */
  function OptVarint(tag: byte, v: uint64): bytes { if v == 0 then [] else VarintRecord(tag, v) }

  function OptBytes(tag: byte, p: bytes): (r: bytes)
    ensures |r| >= |p|
  {
    if p == [] then [] else BytesRecord(tag, p)
  }

  /** A present sub-message is written even when it is empty. */
  function OptMessage(tag: byte, o: Option<bytes>): (r: bytes)
    ensures o.Some? ==> |r| > |o.value|
  {
    match o case None => [] case Some(p) => BytesRecord(tag, p)
  }

  function RepeatedBytes(tag: byte, ps: seq<bytes>): bytes {
    if ps == [] then [] else BytesRecord(tag, ps[0]) + RepeatedBytes(tag, ps[1..])
  }

  lemma ReadTagByte(tag: byte, rest: bytes)
    requires 8 <= tag < 128
    ensures ReadVarint([tag] + rest) == Some((tag, 1))
    ensures FieldNumber(tag) == tag / 8 > 0
  {
    assert ([tag] + rest)[0] == tag;
  }

  lemma ReadVarintRecord(kind: int -> Kind, tag: byte, v: uint64, rest: bytes)
    requires 8 <= tag < 128 && tag % 8 == 0 && kind(tag / 8) == VarintKind
    ensures ReadField(kind, VarintRecord(tag, v) + rest)
         == Some((VarintField(tag / 8, v), |VarintRecord(tag, v)|))
  {
    var bs := VarintRecord(tag, v) + rest;
    assert bs == [tag] + (Varint(v) + rest);
    ReadTagByte(tag, Varint(v) + rest);
    VarintRoundTrip(v, rest);
    assert bs[1..] == Varint(v) + rest;
  }

  lemma ReadBytesRecord(kind: int -> Kind, tag: byte, p: bytes, rest: bytes)
    requires 8 <= tag < 128 && tag % 8 == 2 && kind(tag / 8) == BytesKind && |p| < TWO_63
    ensures ReadField(kind, BytesRecord(tag, p) + rest)
         == Some((BytesField(tag / 8, p), |BytesRecord(tag, p)|))
  {
    var bs := BytesRecord(tag, p) + rest;
    var tail := Varint(|p|) + (p + rest);
    assert bs == [tag] + tail;
    ReadTagByte(tag, tail);
    VarintRoundTrip(|p|, p + rest);
    assert bs[1..] == tail;
    var n := |Varint(|p|)|;
    assert ReadLength(bs[1..]) == Some((n, n + |p|));
    assert bs[1 + n..1 + n + |p|] == p;
  }

  /** Decoding resumes after one encoded scalar field. */
  lemma DecodeVarintRecord<M>(s: Schema<M>, m: M, tag: byte, v: uint64, rest: bytes)
    requires 8 <= tag < 128 && tag % 8 == 0 && s.kind(tag / 8) == VarintKind
    requires s.merge(m, VarintField(tag / 8, v)).Some?
    ensures Decode(s, m, VarintRecord(tag, v) + rest)
         == Decode(s, s.merge(m, VarintField(tag / 8, v)).value, rest)
  {
    ReadVarintRecord(s.kind, tag, v, rest);
    assert (VarintRecord(tag, v) + rest)[|VarintRecord(tag, v)|..] == rest;
  }

  /** Decoding resumes after one encoded byte string or sub-message. */
  lemma DecodeBytesRecord<M>(s: Schema<M>, m: M, tag: byte, p: bytes, rest: bytes)
    requires 8 <= tag < 128 && tag % 8 == 2 && s.kind(tag / 8) == BytesKind && |p| < TWO_63
    requires s.merge(m, BytesField(tag / 8, p)).Some?
    ensures Decode(s, m, BytesRecord(tag, p) + rest)
         == Decode(s, s.merge(m, BytesField(tag / 8, p)).value, rest)
  {
    ReadBytesRecord(s.kind, tag, p, rest);
    assert (BytesRecord(tag, p) + rest)[|BytesRecord(tag, p)|..] == rest;
  }
}
