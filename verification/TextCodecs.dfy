/** The text forms of bytes and numbers the program uses: base16, base64 and decimal. */
module TextCodecs {
  import opened Base

  // ---- base16 (section 8 of RFC 4648), as Go's encoding/hex reads and writes it ----

  type digit = x: int | 0 <= x < 16

  /** The encoder's alphabet is lower-case. */
  function HexChar(v: digit): char {
    if v < 10 then '0' + v as char else 'a' + (v - 10) as char
  }

  /** The decoder takes both cases. */
  function HexValue(c: char): Option<digit> {
    if '0' <= c <= '9' then Some(c as int - '0' as int)
    else if 'a' <= c <= 'f' then Some(c as int - 'a' as int + 10)
    else if 'A' <= c <= 'F' then Some(c as int - 'A' as int + 10)
    else None
  }

  function EncodeHex(bs: bytes): (s: string)
    ensures |s| == 2 * |bs|
  {
    if bs == [] then "" else [HexChar(bs[0] / 16), HexChar(bs[0] % 16)] + EncodeHex(bs[1..])
  }

  function HexByte(hi: digit, lo: digit): byte {
    var h: int := hi;
    16 * h + lo
  }

  function DecodeHex(s: string): (r: Option<bytes>)
    ensures r.Some? ==> |s| == 2 * |r.value|
  {
    if s == "" then Some([])
    else if |s| == 1 then None
    else
      match (HexValue(s[0]), HexValue(s[1]), DecodeHex(s[2..]))
      case (Some(hi), Some(lo), Some(rest)) => Some([HexByte(hi, lo)] + rest)
      case _ => None
  }

  predicate IsHex(s: string) { forall i :: 0 <= i < |s| ==> HexValue(s[i]).Some? }

  predicate IsLowerHex(s: string) {
    forall i :: 0 <= i < |s| ==> HexValue(s[i]).Some? && !('A' <= s[i] <= 'F')
  }

  function LowerChar(c: char): char {
    if 'A' <= c <= 'Z' then 'a' + (c - 'A') else c
  }

  function Lower(s: string): (t: string)
    ensures |t| == |s| && forall i :: 0 <= i < |s| ==> t[i] == LowerChar(s[i])
  {
    seq(|s|, i requires 0 <= i < |s| => LowerChar(s[i]))
  }

  lemma HexDigitRoundTrip(v: digit)
    ensures HexValue(HexChar(v)) == Some(v) && !('A' <= HexChar(v) <= 'F')
  {
  }

  lemma HexCharOfValue(c: char)
    requires HexValue(c).Some?
    ensures HexChar(HexValue(c).value) == LowerChar(c)
  {
  }

  lemma HexByteDigits(hi: digit, lo: digit, b: byte)
    ensures HexByte(hi, lo) / 16 == hi && HexByte(hi, lo) % 16 == lo
    ensures HexByte(b / 16, b % 16) == b
  {
  }

  lemma {:induction false} HexRoundTrip(bs: bytes)
    ensures DecodeHex(EncodeHex(bs)) == Some(bs)
    ensures IsLowerHex(EncodeHex(bs))
  {
    if bs != [] {
      hide HexValue, HexChar, HexByte, LowerChar;
      var s := EncodeHex(bs);
      HexDigitRoundTrip(bs[0] / 16);
      HexDigitRoundTrip(bs[0] % 16);
      HexByteDigits(0, 0, bs[0]);
      assert s[2..] == EncodeHex(bs[1..]);
      HexRoundTrip(bs[1..]);
      assert [bs[0]] + bs[1..] == bs;
      assert forall i :: 2 <= i < |s| ==> s[i] == s[2..][i - 2];
    }
  }

  /** Decoding succeeds exactly on even-length hex, and loses nothing but the case. */
  lemma {:induction false} DecodeHexExactly(s: string)
    ensures DecodeHex(s).Some? <==> |s| % 2 == 0 && IsHex(s)
    ensures DecodeHex(s).Some? ==> EncodeHex(DecodeHex(s).value) == Lower(s)
  {
    if |s| >= 2 {
      hide HexValue, HexChar, HexByte, LowerChar;
      DecodeHexExactly(s[2..]);
      assert forall i :: 2 <= i < |s| ==> s[i] == s[2..][i - 2];
      assert IsHex(s) <==> HexValue(s[0]).Some? && HexValue(s[1]).Some? && IsHex(s[2..]);
      if DecodeHex(s).Some? {
        var hi, lo := HexValue(s[0]).value, HexValue(s[1]).value;
        HexCharOfValue(s[0]);
        HexCharOfValue(s[1]);
        HexByteDigits(hi, lo, 0);
        assert DecodeHex(s).value[1..] == DecodeHex(s[2..]).value;
        assert Lower(s) == [LowerChar(s[0]), LowerChar(s[1])] + Lower(s[2..]);
      }
    }
  }

  lemma HexIsInjective(a: bytes, b: bytes)
    ensures EncodeHex(a) == EncodeHex(b) <==> a == b
  {
    HexRoundTrip(a);
    HexRoundTrip(b);
  }

  /** The number that digits spell, most significant first. */
  function Spelled(base: nat, digits: seq<nat>): nat {
    if digits == [] then 0 else Spelled(base, digits[..|digits| - 1]) * base + digits[|digits| - 1]
  }

  function HexDigits(s: string): seq<nat>
    requires IsHex(s)
  {
    seq(|s|, i requires 0 <= i < |s| => HexValue(s[i]).value)
  }

  lemma {:induction false} HexConcat(a: bytes, b: bytes)
    ensures EncodeHex(a + b) == EncodeHex(a) + EncodeHex(b)
    decreases |a|
  {
    if a == [] {
      assert a + b == b;
    } else {
      assert (a + b)[1..] == a[1..] + b;
      HexConcat(a[1..], b);
    }
  }

  lemma TwoDigits(ds: seq<nat>, hi: nat, lo: nat)
    ensures Spelled(16, ds + [hi] + [lo]) == (Spelled(16, ds) * 16 + hi) * 16 + lo
  {
    assert (ds + [hi] + [lo])[..|ds| + 1] == ds + [hi];
    assert (ds + [hi])[..|ds|] == ds;
  }

  lemma HexOfByte(b: byte)
    ensures EncodeHex([b]) == [HexChar(b / 16), HexChar(b % 16)]
  {
    hide HexChar;
    assert [b][1..] == [] && EncodeHex([]) == "";
  }

  lemma OneMoreByte(init: bytes, last: byte)
    ensures IsHex(EncodeHex(init)) && IsHex(EncodeHex(init + [last]))
    ensures HexDigits(EncodeHex(init + [last])) == HexDigits(EncodeHex(init)) + [last / 16] + [last % 16]
  {
    HexRoundTrip(init);
    HexRoundTrip(init + [last]);
    HexConcat(init, [last]);
    HexOfByte(last);
    HexDigitRoundTrip(last / 16);
    HexDigitRoundTrip(last % 16);
    hide HexValue, HexChar, EncodeHex;
  }

  /** The text spells, in base 16, the number the bytes spell in base 256: the high digit comes first. */
  lemma {:induction false} HexSpellsTheBytes(bs: bytes)
    ensures IsHex(EncodeHex(bs)) && Spelled(16, HexDigits(EncodeHex(bs))) == Spelled(256, bs)
  {
    if bs == [] {
      assert HexDigits(EncodeHex(bs)) == [];
    } else {
      var init, last := bs[..|bs| - 1], bs[|bs| - 1];
      HexSpellsTheBytes(init);
      assert bs == init + [last];
      OneMoreByte(init, last);
      hide EncodeHex, HexDigits;
      TwoDigits(HexDigits(EncodeHex(init)), last / 16, last % 16);
    }
  }

  // ---- base64 (section 4 of RFC 4648), as Go's base64.StdEncoding reads and writes it ----

  type sextet = x: int | 0 <= x < 64

  function B64Char(v: sextet): char {
    if v < 26 then 'A' + v as char
    else if v < 52 then 'a' + (v - 26) as char
    else if v < 62 then '0' + (v - 52) as char
    else if v == 62 then '+' else '/'
  }

  function B64Value(c: char): Option<sextet> {
    if 'A' <= c <= 'Z' then Some(c as int - 'A' as int)
    else if 'a' <= c <= 'z' then Some(c as int - 'a' as int + 26)
    else if '0' <= c <= '9' then Some(c as int - '0' as int + 52)
    else if c == '+' then Some(62)
    else if c == '/' then Some(63)
    else None
  }

  // The four sextets of three bytes.
  function Sextet0(a: byte): sextet { a / 4 }
  function Sextet1(a: byte, b: byte): sextet { a % 4 * 16 + b / 16 }
  function Sextet2(b: byte, c: byte): sextet { b % 16 * 4 + c / 64 }
  function Sextet3(c: byte): sextet { c % 64 }

  function EncodeQuad(a: byte, b: byte, c: byte): (s: string)
    ensures |s| == 4
  {
    [B64Char(Sextet0(a)), B64Char(Sextet1(a, b)), B64Char(Sextet2(b, c)), B64Char(Sextet3(c))]
  }

  function EncodeB64(bs: bytes): string
  {
    if bs == [] then ""
    else if |bs| == 1 then EncodeQuad(bs[0], 0, 0)[..2] + "=="
    else if |bs| == 2 then EncodeQuad(bs[0], bs[1], 0)[..3] + "="
    else EncodeQuad(bs[0], bs[1], bs[2]) + EncodeB64(bs[3..])
  }

  /** Three bytes from four sextets. */
  function Triple(p: sextet, q: sextet, r: sextet, t: sextet): (x: bytes)
    ensures |x| == 3
  {
    [p * 4 + q / 16, q % 16 * 16 + r / 4, r % 4 * 64 + t]
  }

  /** Padding may only close the text; the bits it leaves over are ignored. */
  function DecodeQuads(s: string): Option<bytes> {
    if s == "" then Some([])
    else if |s| < 4 then None
    else
      match (B64Value(s[0]), B64Value(s[1]))
      case (Some(p), Some(q)) =>
        if s[2..] == "==" then Some(Triple(p, q, 0, 0)[..1])
        else
          (match B64Value(s[2])
           case None => None
           case Some(r) =>
             if s[3..] == "=" then Some(Triple(p, q, r, 0)[..2])
             else
               match (B64Value(s[3]), DecodeQuads(s[4..]))
               case (Some(t), Some(rest)) => Some(Triple(p, q, r, t) + rest)
               case _ => None)
      case _ => None
  }

  /** Line breaks are skipped wherever they stand. */
  function StripLines(s: string): string {
    if s == "" then ""
    else if s[0] == '\r' || s[0] == '\n' then StripLines(s[1..])
    else [s[0]] + StripLines(s[1..])
  }

  function DecodeB64(s: string): Option<bytes> { DecodeQuads(StripLines(s)) }

  predicate IsB64(s: string) { forall i :: 0 <= i < |s| ==> B64Value(s[i]).Some? }

  lemma {:induction false} StripLinesKeeps(s: string)
    requires forall i :: 0 <= i < |s| ==> s[i] != '\r' && s[i] != '\n'
    ensures StripLines(s) == s
  {
    if s != "" {
      StripLinesKeeps(s[1..]);
      assert s == [s[0]] + s[1..];
    }
  }

  lemma SextetRoundTrip(v: sextet)
    ensures B64Value(B64Char(v)) == Some(v) && B64Char(v) != '='
    ensures B64Char(v) != '\r' && B64Char(v) != '\n'
  {
  }

  lemma B64CharOfValue(c: char)
    requires B64Value(c).Some?
    ensures B64Char(B64Value(c).value) == c && c != '=' && c != '\r' && c != '\n'
  {
  }

  lemma TripleOfQuad(a: byte, b: byte, c: byte)
    ensures Triple(Sextet0(a), Sextet1(a, b), Sextet2(b, c), Sextet3(c)) == [a, b, c]
  {
    assert Sextet1(a, b) / 16 == a % 4 && Sextet1(a, b) % 16 == b / 16;
    assert Sextet2(b, c) / 4 == b % 16 && Sextet2(b, c) % 4 == c / 64;
  }

  lemma QuadOfTriple(p: sextet, q: sextet, r: sextet, t: sextet)
    ensures var x := Triple(p, q, r, t);
      EncodeQuad(x[0], x[1], x[2]) == [B64Char(p), B64Char(q), B64Char(r), B64Char(t)]
  {
    hide B64Char;
    var x := Triple(p, q, r, t);
    assert x[0] / 4 == p && x[0] % 4 == q / 16;
    assert x[1] / 16 == q % 16 && x[1] % 16 == r / 4;
    assert x[2] / 64 == r % 4 && x[2] % 64 == t;
  }

  lemma QuadDigits(a: byte, b: byte, c: byte)
    ensures var s := EncodeQuad(a, b, c);
      && B64Value(s[0]) == Some(Sextet0(a)) && B64Value(s[1]) == Some(Sextet1(a, b))
      && B64Value(s[2]) == Some(Sextet2(b, c)) && B64Value(s[3]) == Some(Sextet3(c))
      && forall i :: 0 <= i < 4 ==> s[i] != '=' && s[i] != '\r' && s[i] != '\n'
  {
    hide B64Value, B64Char, Sextet0, Sextet1, Sextet2, Sextet3;
    SextetRoundTrip(Sextet0(a));
    SextetRoundTrip(Sextet1(a, b));
    SextetRoundTrip(Sextet2(b, c));
    SextetRoundTrip(Sextet3(c));
  }

  /** Text without padding came from whole triples. */
  lemma {:induction false} UnpaddedLength(bs: bytes)
    ensures IsB64(EncodeB64(bs)) ==> 3 * |EncodeB64(bs)| == 4 * |bs|
  {
    hide EncodeQuad;
    var s := EncodeB64(bs);
    if |bs| == 1 || |bs| == 2 {
      assert s[3] == '=';
    } else if bs != [] {
      assert forall i :: 4 <= i < |s| ==> s[i] == EncodeB64(bs[3..])[i - 4];
      assert forall i :: 0 <= i < |EncodeB64(bs[3..])| ==> EncodeB64(bs[3..])[i] == s[i + 4];
      UnpaddedLength(bs[3..]);
    }
  }

  lemma {:induction false} EncodeB64HasNoLines(bs: bytes)
    ensures var s := EncodeB64(bs); forall i :: 0 <= i < |s| ==> s[i] != '\r' && s[i] != '\n'
  {
    hide EncodeQuad, B64Value, Sextet0, Sextet1, Sextet2, Sextet3;
    if bs != [] {
      QuadDigits(bs[0], if |bs| > 1 then bs[1] else 0, if |bs| > 2 then bs[2] else 0);
    }
    if |bs| >= 3 {
      EncodeB64HasNoLines(bs[3..]);
      var s := EncodeB64(bs);
      assert forall i :: 4 <= i < |s| ==> s[i] == EncodeB64(bs[3..])[i - 4];
    }
  }

  /** A last quad with two padding characters holds one byte, with one it holds two. */
  lemma DecodePadded(c0: char, c1: char, c2: char)
    requires B64Value(c0).Some? && B64Value(c1).Some? && B64Value(c2).Some?
    ensures var p, q, r := B64Value(c0).value, B64Value(c1).value, B64Value(c2).value;
      && DecodeQuads([c0, c1, '=', '=']) == Some(Triple(p, q, 0, 0)[..1])
      && DecodeQuads([c0, c1, c2, '=']) == Some(Triple(p, q, r, 0)[..2])
  {
    B64CharOfValue(c2);
    hide B64Value, Triple;
    var s, t := [c0, c1, '=', '='], [c0, c1, c2, '='];
    assert s[2..] == "==";
    assert t[3..] == "=" && t[2..][0] != '=';
  }

  lemma PaddedText(a: byte, b: byte)
    ensures var q := EncodeQuad(a, 0, 0); EncodeB64([a]) == [q[0], q[1], '=', '=']
    ensures var q := EncodeQuad(a, b, 0); EncodeB64([a, b]) == [q[0], q[1], q[2], '=']
    ensures Sextet2(0, 0) == 0 && Sextet3(0) == 0
  {
    hide EncodeQuad;
  }

  lemma OneByteRoundTrip(a: byte)
    ensures DecodeQuads(EncodeB64([a])) == Some([a])
  {
    hide EncodeQuad, EncodeB64, DecodeQuads, B64Value, Triple, Sextet0, Sextet1, Sextet2, Sextet3;
    var q := EncodeQuad(a, 0, 0);
    PaddedText(a, 0);
    QuadDigits(a, 0, 0);
    DecodePadded(q[0], q[1], q[2]);
    TripleOfQuad(a, 0, 0);
    assert [a, 0, 0][..1] == [a];
  }

  lemma TwoBytesRoundTrip(a: byte, b: byte)
    ensures DecodeQuads(EncodeB64([a, b])) == Some([a, b])
  {
    hide EncodeQuad, EncodeB64, DecodeQuads, B64Value, Triple, Sextet0, Sextet1, Sextet2, Sextet3;
    var q := EncodeQuad(a, b, 0);
    PaddedText(a, b);
    QuadDigits(a, b, 0);
    DecodePadded(q[0], q[1], q[2]);
    TripleOfQuad(a, b, 0);
    assert [a, b, 0][..2] == [a, b];
  }

  lemma DecodeOneQuad(s: string)
    requires |s| >= 4 && IsB64(s[..4])
    ensures B64Value(s[0]).Some? && B64Value(s[1]).Some? && B64Value(s[2]).Some? && B64Value(s[3]).Some?
    ensures var p, q, r, t := B64Value(s[0]).value, B64Value(s[1]).value, B64Value(s[2]).value, B64Value(s[3]).value;
      DecodeQuads(s) == match DecodeQuads(s[4..]) case None => None case Some(rest) => Some(Triple(p, q, r, t) + rest)
  {
    assert s[0] == s[..4][0] && s[1] == s[..4][1] && s[2] == s[..4][2] && s[3] == s[..4][3];
    B64CharOfValue(s[2]);
    B64CharOfValue(s[3]);
    hide B64Value, B64Char, Triple;
    assert s[2..][0] != '=' && s[3..][0] != '=';
  }

  lemma EncodeStep(x: bytes, rest: bytes)
    requires |x| == 3
    ensures EncodeB64(x + rest) == EncodeQuad(x[0], x[1], x[2]) + EncodeB64(rest)
  {
    hide EncodeQuad;
    assert (x + rest)[3..] == rest;
  }

  lemma {:induction false} QuadsRoundTrip(bs: bytes)
    ensures DecodeQuads(EncodeB64(bs)) == Some(bs)
  {
    if bs == [] {
      assert EncodeB64(bs) == "";
    } else if |bs| == 1 {
      OneByteRoundTrip(bs[0]);
      assert bs == [bs[0]];
    } else if |bs| == 2 {
      TwoBytesRoundTrip(bs[0], bs[1]);
      assert bs == [bs[0], bs[1]];
    } else {
      hide EncodeQuad, EncodeB64, DecodeQuads, B64Value, Triple, Sextet0, Sextet1, Sextet2, Sextet3;
      var x := [bs[0], bs[1], bs[2]];
      var q, tail := EncodeQuad(x[0], x[1], x[2]), EncodeB64(bs[3..]);
      var s := q + tail;
      assert x + bs[3..] == bs;
      EncodeStep(x, bs[3..]);
      QuadDigits(x[0], x[1], x[2]);
      assert s[..4] == q && s[4..] == tail;
      DecodeOneQuad(s);
      TripleOfQuad(x[0], x[1], x[2]);
      QuadsRoundTrip(bs[3..]);
    }
  }

  /** Every byte string survives its base64 text. */
  lemma B64RoundTrip(bs: bytes)
    ensures DecodeB64(EncodeB64(bs)) == Some(bs)
  {
    EncodeB64HasNoLines(bs);
    StripLinesKeeps(EncodeB64(bs));
    QuadsRoundTrip(bs);
  }

  /** The sextets of a quad spell the quad again. */
  lemma QuadText(s: string)
    requires |s| == 4 && IsB64(s)
    ensures var x := Triple(B64Value(s[0]).value, B64Value(s[1]).value, B64Value(s[2]).value, B64Value(s[3]).value);
      EncodeQuad(x[0], x[1], x[2]) == s
  {
    hide EncodeQuad, Triple, B64Value, B64Char;
    QuadOfTriple(B64Value(s[0]).value, B64Value(s[1]).value, B64Value(s[2]).value, B64Value(s[3]).value);
    B64CharOfValue(s[0]);
    B64CharOfValue(s[1]);
    B64CharOfValue(s[2]);
    B64CharOfValue(s[3]);
  }

  lemma {:induction false} DecodeFullQuads(s: string)
    requires |s| % 4 == 0 && IsB64(s)
    ensures DecodeQuads(s).Some? && 4 * |DecodeQuads(s).value| == 3 * |s|
    ensures EncodeB64(DecodeQuads(s).value) == s
  {
    if s == "" {
      assert DecodeQuads(s) == Some([]) && EncodeB64([]) == s;
    } else {
      hide B64Value, B64Char, DecodeQuads, EncodeQuad, EncodeB64, Triple;
      var quad, tail := s[..4], s[4..];
      assert s == quad + tail && IsB64(quad) && IsB64(tail);
      DecodeFullQuads(tail);
      DecodeOneQuad(s);
      QuadText(quad);
      EncodeStep(DecodeQuads(s).value[..3], DecodeQuads(tail).value);
    }
  }

  /** Four characters spell, in base 64, the number three bytes spell in base 256. */
  lemma QuadSpellsTheTriple(a: byte, b: byte, c: byte)
    ensures var s := EncodeB64([a, b, c]);
      && |s| == 4 && IsB64(s)
      && ((B64Value(s[0]).value * 64 + B64Value(s[1]).value) * 64 + B64Value(s[2]).value) * 64 + B64Value(s[3]).value
         == (a * 256 + b) * 256 + c
  {
    QuadDigits(a, b, c);
    hide EncodeQuad, B64Value;
    EncodeStep([a, b, c], []);
    assert [a, b, c] + [] == [a, b, c];
    assert EncodeB64([]) == "";
  }

  /** Unpadded base64 text of whole quads survives being decoded and encoded again. */
  lemma B64TextRoundTrip(s: string)
    requires |s| % 4 == 0 && IsB64(s)
    ensures DecodeB64(s).Some? && 4 * |DecodeB64(s).value| == 3 * |s| && EncodeB64(DecodeB64(s).value) == s
  {
    forall i | 0 <= i < |s| ensures s[i] != '\r' && s[i] != '\n' {
      B64CharOfValue(s[i]);
    }
    StripLinesKeeps(s);
    DecodeFullQuads(s);
  }

  // ---- decimal integers, as strconv.ParseInt(s, 10, 64) reads them ----

  function DigitsValue(s: string): Option<nat> {
    if s == "" then Some(0)
    else
      var c := s[|s| - 1];
      match DigitsValue(s[..|s| - 1])
      case Some(v) => if '0' <= c <= '9' then Some(10 * v + (c as int - '0' as int)) else None
      case None => None
  }

  function ParseInt64(s: string): Option<int64> {
    var negative := s != "" && s[0] == '-';
    var body := if s != "" && (s[0] == '-' || s[0] == '+') then s[1..] else s;
    if body == "" then None
    else
      match DigitsValue(body)
      case None => None
      case Some(v) =>
        var n: int := if negative then -(v as int) else v;
        if -TWO_63 <= n < TWO_63 then Some(n) else None
  }

  /** strconv.ParseUint(s, 10, 64): digits only. */
  function ParseUint64(s: string): Option<uint64> {
    if s == "" then None
    else
      match DigitsValue(s)
      case None => None
      case Some(v) => if v < TWO_64 then Some(v) else None
  }
}
