/** Recovery of the ledger hashes the first RPC fetcher stored wrongly. */
module FixHashes {
  import opened Base
  import opened TextCodecs
  import opened Bstream
  import M = Messages
  import RT = RoundTrip

  const HASH_LENGTH := 32

  /** Base64-encodes the stored bytes, which spells the original hex, and decodes that. */
  function ConvertBrokenHash(broken: bytes): Option<bytes> {
    match DecodeHex(EncodeB64(broken))
    case None => None
    case Some(recovered) => if |recovered| == HASH_LENGTH then Some(recovered) else None
  }

  lemma LowerHexIsB64(s: string)
    requires IsHex(s)
    ensures IsB64(s)
  {
    forall i | 0 <= i < |s| ensures B64Value(s[i]).Some? {
      assert HexValue(s[i]).Some?;
    }
  }

  /**
   The recovery inverts the mistake: whatever 32-byte hash was written as hex and then read
   as base64 comes back.
   */
  lemma RecoveryInvertsTheMistake(h: bytes)
    requires |h| == HASH_LENGTH
    ensures DecodeB64(EncodeHex(h)).Some? && |DecodeB64(EncodeHex(h)).value| == 48
    ensures ConvertBrokenHash(DecodeB64(EncodeHex(h)).value) == Some(h)
  {
    HexRoundTrip(h);
    LowerHexIsB64(EncodeHex(h));
    B64TextRoundTrip(EncodeHex(h));
  }

  /**
   It succeeds exactly on 48 bytes whose base64 text is hex of either case, and that text
   is then, case aside, the hex of the result.
   */
  lemma RecoveryExactly(broken: bytes)
    ensures ConvertBrokenHash(broken).Some? <==> |broken| == 48 && IsHex(EncodeB64(broken))
    ensures ConvertBrokenHash(broken).Some? ==>
      Lower(EncodeB64(broken)) == EncodeHex(ConvertBrokenHash(broken).value)
  {
    var text := EncodeB64(broken);
    DecodeHexExactly(text);
    hide EncodeB64, DecodeHex, EncodeHex, IsHex;
    if IsHex(text) {
      LowerHexIsB64(text);
      UnpaddedLength(broken);
    }
  }

  /** Two accepted inputs recover the same hash exactly when their texts differ at most in case. */
  lemma RecoveryUpToCase(a: bytes, b: bytes)
    requires ConvertBrokenHash(a).Some? && ConvertBrokenHash(b).Some?
    ensures ConvertBrokenHash(a) == ConvertBrokenHash(b) <==> Lower(EncodeB64(a)) == Lower(EncodeB64(b))
  {
    RecoveryExactly(a);
    RecoveryExactly(b);
    HexIsInjective(ConvertBrokenHash(a).value, ConvertBrokenHash(b).value);
  }

  /** On inputs whose text is lower-case hex the recovery is injective. */
  lemma RecoveryIsInjectiveOnLowerCase(a: bytes, b: bytes)
    requires ConvertBrokenHash(a).Some? && ConvertBrokenHash(b).Some?
    requires IsLowerHex(EncodeB64(a)) && IsLowerHex(EncodeB64(b))
    ensures ConvertBrokenHash(a) == ConvertBrokenHash(b) <==> a == b
  {
    RecoveryUpToCase(a, b);
    LowerOfLowerHex(EncodeB64(a));
    LowerOfLowerHex(EncodeB64(b));
    B64RoundTrip(a);
    B64RoundTrip(b);
  }

  lemma LowerOfLowerHex(s: string)
    requires IsLowerHex(s)
    ensures Lower(s) == s
  {
    forall i | 0 <= i < |s| ensures Lower(s)[i] == s[i] {
      assert HexValue(s[i]).Some?;
    }
  }

  // ---- one block ----

  function WithHashes(m: M.Block, hash: bytes, prev: bytes): M.Block
    requires m.header.Some?
  {
    m.(hash := hash, header := Some(m.header.value.(previousLedgerHash := prev)))
  }

  /** The block with its payload's hashes recovered, before anything is checked against its ids. */
  function Recovered(src: BstreamBlock): Option<M.Block> {
    match Unpack(src.payload)
    case None => None
    case Some(m) =>
      if m.header.None? then None
      else
        match (ConvertBrokenHash(m.hash), ConvertBrokenHash(m.header.value.previousLedgerHash))
        case (Some(hash), Some(prev)) => Some(WithHashes(m, hash, prev))
        case _ => None
  }

  /** The stored bytes spell, in base64, the hex of a hash. */
  predicate Recoverable(broken: bytes) { |broken| == 48 && IsHex(EncodeB64(broken)) }

  /** Equal in everything but the two hashes, headers included. */
  predicate SameExceptHashes(n: M.Block, m: M.Block) {
    && n.number == m.number && n.version == m.version && n.transactions == m.transactions
    && n.createdAt == m.createdAt && n.unknown == m.unknown
    && n.header.Some? && m.header.Some?
    && n.header.value.ledgerVersion == m.header.value.ledgerVersion
    && n.header.value.totalCoins == m.header.value.totalCoins
    && n.header.value.baseFee == m.header.value.baseFee
    && n.header.value.baseReserve == m.header.value.baseReserve
    && n.header.value.unknown == m.header.value.unknown
  }

  /** `hash` is the 32 bytes whose hex the base64 of `broken` is, case aside. */
  predicate RecoveredFrom(hash: bytes, broken: bytes) {
    |hash| == HASH_LENGTH && EncodeHex(hash) == Lower(EncodeB64(broken))
  }

  /**
   Recovery succeeds exactly on a readable payload with a header and two recoverable hashes;
   then each hash is the one its own broken bytes spell, and nothing else changes.
   */
  lemma RecoveredExactly(src: BstreamBlock)
    ensures Recovered(src).Some? <==>
      && Unpack(src.payload).Some? && Unpack(src.payload).value.header.Some?
      && Recoverable(Unpack(src.payload).value.hash)
      && Recoverable(Unpack(src.payload).value.header.value.previousLedgerHash)
    ensures Recovered(src).Some? ==>
      var n, m := Recovered(src).value, Unpack(src.payload).value;
      && SameExceptHashes(n, m)
      && RecoveredFrom(n.hash, m.hash)
      && RecoveredFrom(n.header.value.previousLedgerHash, m.header.value.previousLedgerHash)
  {
    if Unpack(src.payload).Some? && Unpack(src.payload).value.header.Some? {
      var m := Unpack(src.payload).value;
      RecoveryExactly(m.hash);
      RecoveryExactly(m.header.value.previousLedgerHash);
      HashIs32(m.hash);
      HashIs32(m.header.value.previousLedgerHash);
      hide Unpack, ConvertBrokenHash;
    }
  }

  lemma HashIs32(broken: bytes)
    ensures ConvertBrokenHash(broken).Some? ==> |ConvertBrokenHash(broken).value| == HASH_LENGTH
  {
    hide DecodeHex, EncodeB64;
  }

  /** What FixBlock returns; None is any of its errors. */
  function Fixed(src: BstreamBlock): Option<BstreamBlock> {
    match Recovered(src)
    case None => None
    case Some(m) =>
      if EncodeHex(m.hash) != src.id then None
      else if EncodeHex(m.header.value.previousLedgerHash) != src.parentId then None
      else
        match Pack(m)
        case None => None
        case Some(payload) => Some(src.(payload := payload))
  }

  /** sanitizeBlockInPlace: the same recovery, with the ids rewritten instead of checked. */
  function Sanitized(src: BstreamBlock): Option<BstreamBlock> {
    match Recovered(src)
    case None => None
    case Some(m) =>
      match Pack(m)
      case None => None
      case Some(payload) =>
        var parentId := EncodeHex(m.header.value.previousLedgerHash);
        Some(src.(id := EncodeHex(m.hash), parentId := parentId, payload := payload))
  }

  method FixBlock(src: BstreamBlock) returns (r: Option<BstreamBlock>)
    ensures r == Fixed(src)
  {
    var unpacked := Unpack(src.payload);
    if unpacked.None? {
      return None;
    }
    var srcStellar := unpacked.value;
    if srcStellar.header.None? {
      return None;
    }
    var recoveredHash := ConvertBrokenHash(srcStellar.hash);
    if recoveredHash.None? {
      return None;
    }
    var recoveredPrev := ConvertBrokenHash(srcStellar.header.value.previousLedgerHash);
    if recoveredPrev.None? {
      return None;
    }
    if EncodeHex(recoveredHash.value) != src.id {
      return None;
    }
    if EncodeHex(recoveredPrev.value) != src.parentId {
      return None;
    }
    srcStellar := srcStellar.(hash := recoveredHash.value);
    srcStellar := srcStellar.(header := Some(srcStellar.header.value.(previousLedgerHash := recoveredPrev.value)));
    var newPayload := Pack(srcStellar);
    if newPayload.None? {
      return None;
    }
    return Some(BstreamBlock(
      src.number, src.id, src.parentId, src.timestamp, src.libNum, src.parentNum, newPayload.value));
  }

  /** The payload of a recovered block reads back as the recovered message. */
  lemma RecoveredReadsBack(src: BstreamBlock)
    requires Recovered(src).Some? && Pack(Recovered(src).value).Some?
    ensures Unpack(Pack(Recovered(src).value).value) == Recovered(src)
  {
    hide Pack;
    UnpackedIsOk(src.payload);
    PackRoundTrip(Recovered(src).value);
  }

  /**
   FixBlock accepts exactly the recoverable blocks whose ids are the base64 text of the stored
   bytes, case aside, unless the new payload is too large. It replaces the payload only: the
   new one is the old one with both hashes replaced by those the ids spell.
   */
  lemma FixedBlock(src: BstreamBlock)
    ensures Fixed(src).Some? <==>
      && Recovered(src).Some? && Pack(Recovered(src).value).Some?
      && src.id == Lower(EncodeB64(Unpack(src.payload).value.hash))
      && src.parentId == Lower(EncodeB64(Unpack(src.payload).value.header.value.previousLedgerHash))
    ensures Fixed(src).Some? ==>
      var f := Fixed(src).value;
      && f == src.(payload := f.payload)
      && PayloadHash(f).Some? && PayloadPreviousHash(f).Some?
      && |PayloadHash(f).value| == HASH_LENGTH && |PayloadPreviousHash(f).value| == HASH_LENGTH
      && f.id == EncodeHex(PayloadHash(f).value) && f.parentId == EncodeHex(PayloadPreviousHash(f).value)
      && SameExceptHashes(Unpack(f.payload).value, Unpack(src.payload).value)
  {
    RecoveredExactly(src);
    hide Pack, Unpack, Recovered, Recoverable, EncodeHex, EncodeB64, Lower;
    if Recovered(src).Some? && Pack(Recovered(src).value).Some? {
      RecoveredReadsBack(src);
    }
  }

  /**
   Sanitizing accepts every recoverable block, unless the new payload is too large, and
   rewrites both ids and the payload: the ids to the base64 text of the stored bytes, in
   lower case, the hashes in the payload to what those ids spell.
   */
  lemma SanitizedBlock(src: BstreamBlock)
    ensures Sanitized(src).Some? <==> Recovered(src).Some? && Pack(Recovered(src).value).Some?
    ensures Sanitized(src).Some? ==>
      var s, m := Sanitized(src).value, Unpack(src.payload).value;
      && s == src.(id := s.id, parentId := s.parentId, payload := s.payload)
      && s.id == Lower(EncodeB64(m.hash)) && s.parentId == Lower(EncodeB64(m.header.value.previousLedgerHash))
      && PayloadHash(s).Some? && PayloadPreviousHash(s).Some?
      && s.id == EncodeHex(PayloadHash(s).value) && s.parentId == EncodeHex(PayloadPreviousHash(s).value)
      && Unpack(s.payload) == Recovered(src) && SameExceptHashes(Recovered(src).value, m)
  {
    RecoveredExactly(src);
    hide Pack, Unpack, Recovered, Recoverable, EncodeHex, EncodeB64, Lower;
    if Recovered(src).Some? && Pack(Recovered(src).value).Some? {
      RecoveredReadsBack(src);
    }
  }

  /** On every block FixBlock accepts, sanitizing gives the same block. */
  lemma SanitizingAgrees(src: BstreamBlock)
    requires Fixed(src).Some?
    ensures Sanitized(src) == Fixed(src)
  {
    hide Pack, Unpack;
  }

  /** Sanitizing and fixing agree exactly when the ids already spell the recovered hashes. */
  lemma SanitizingAgreesExactly(src: BstreamBlock)
    requires Sanitized(src).Some?
    ensures Fixed(src) == Sanitized(src) <==>
      && src.id == EncodeHex(Recovered(src).value.hash)
      && src.parentId == EncodeHex(Recovered(src).value.header.value.previousLedgerHash)
  {
    hide Pack, Unpack;
  }

  /** A fixed block is never accepted again: 32 bytes need padding, which is not hex. */
  lemma FixingTwiceFails(src: BstreamBlock)
    requires Fixed(src).Some?
    ensures Fixed(Fixed(src).value) == None
  {
    hide Pack, Unpack;
    FixedBlock(src);
    RecoveryExactly(PayloadHash(Fixed(src).value).value);
  }

  /** The shape the first RPC fetcher produced: hex hashes read as base64, ids in hex. */
  ghost predicate FirstFetcherShape(src: BstreamBlock, hash: bytes, prev: bytes) {
    && |hash| == HASH_LENGTH && |prev| == HASH_LENGTH
    && src.id == EncodeHex(hash) && src.parentId == EncodeHex(prev)
    && Unpack(src.payload).Some? && Unpack(src.payload).value.header.Some?
    && Some(Unpack(src.payload).value.hash) == DecodeB64(EncodeHex(hash))
    && Some(Unpack(src.payload).value.header.value.previousLedgerHash) == DecodeB64(EncodeHex(prev))
  }

  /** Every block of that shape is accepted, and gets its true hashes back. */
  lemma FirstFetcherBlocksAreFixed(src: BstreamBlock, hash: bytes, prev: bytes)
    requires FirstFetcherShape(src, hash, prev)
    requires Pack(WithHashes(Unpack(src.payload).value, hash, prev)).Some?
    ensures Fixed(src).Some?
    ensures PayloadHash(Fixed(src).value) == Some(hash) && PayloadPreviousHash(Fixed(src).value) == Some(prev)
    ensures SameExceptHashes(Unpack(Fixed(src).value.payload).value, Unpack(src.payload).value)
  {
    hide Pack, Unpack;
    RecoveryInvertsTheMistake(hash);
    RecoveryInvertsTheMistake(prev);
    RecoveredReadsBack(src);
  }

  /** Across a parent link, the fixed previous hash is the parent's fixed hash. */
  lemma FixedChainLinks(parent: BstreamBlock, child: BstreamBlock)
    requires Fixed(parent).Some? && Fixed(child).Some?
    ensures PayloadPreviousHash(Fixed(child).value).Some? && PayloadHash(Fixed(parent).value).Some?
    ensures child.parentId == parent.id <==> PayloadPreviousHash(Fixed(child).value) == PayloadHash(Fixed(parent).value)
  {
    hide Pack, Unpack, Fixed;
    FixedBlock(parent);
    FixedBlock(child);
    HexIsInjective(PayloadPreviousHash(Fixed(child).value).value, PayloadHash(Fixed(parent).value).value);
  }

  // ---- a store ----

  function AllBlocks(files: seq<File>): seq<BstreamBlock> {
    if files == [] then [] else AllBlocks(files[..|files| - 1]) + files[|files| - 1].blocks
  }

  /** The blocks of [start, stop), in order. */
  function InRange(bs: seq<BstreamBlock>, start: nat, stop: nat): seq<BstreamBlock> {
    if bs == [] then []
    else
      var last := bs[|bs| - 1];
      InRange(bs[..|bs| - 1], start, stop) + if start <= last.number < stop then [last] else []
  }

  function FixAll(bs: seq<BstreamBlock>): Option<seq<BstreamBlock>> {
    if bs == [] then Some([])
    else
      match (FixAll(bs[..|bs| - 1]), Fixed(bs[|bs| - 1]))
      case (Some(fs), Some(f)) => Some(fs + [f])
      case _ => None
  }

  lemma {:induction false} InRangeConcat(a: seq<BstreamBlock>, b: seq<BstreamBlock>, start: nat, stop: nat)
    ensures InRange(a + b, start, stop) == InRange(a, start, stop) + InRange(b, start, stop)
    decreases |b|
  {
    if b == [] {
      assert a + b == a;
    } else {
      assert (a + b)[..|a + b| - 1] == a + b[..|b| - 1];
      InRangeConcat(a, b[..|b| - 1], start, stop);
    }
  }

  lemma {:induction false} NothingInRange(bs: seq<BstreamBlock>, start: nat, stop: nat)
    requires forall b :: b in bs ==> b.number < start || b.number >= stop
    ensures InRange(bs, start, stop) == []
  {
    if bs != [] {
      NothingInRange(bs[..|bs| - 1], start, stop);
    }
  }

  lemma {:induction false} FixAllFails(a: seq<BstreamBlock>, b: seq<BstreamBlock>)
    requires FixAll(a) == None
    ensures FixAll(a + b) == None
    decreases |b|
  {
    hide Fixed;
    if b == [] {
      assert a + b == a;
    } else {
      assert (a + b)[..|a + b| - 1] == a + b[..|b| - 1];
      FixAllFails(a, b[..|b| - 1]);
    }
  }

  predicate Ascending(bs: seq<BstreamBlock>) {
    forall i, j :: 0 <= i < j < |bs| ==> bs[i].number < bs[j].number
  }

  /** Every file is a bundle and lists its blocks in ascending order. */
  predicate SortedBundles(files: seq<File>) {
    WellFormed(files) && forall f :: f in files ==> BundleStart(f).Some? && Ascending(f.blocks)
  }

  lemma {:induction false} LaterFilesAreOutOfRange(files: seq<File>, k: nat, start: nat, stop: nat)
    requires SortedBundles(files) && k < |files| && BundleStart(files[k]).value >= stop
    ensures InRange(AllBlocks(files), start, stop) == InRange(AllBlocks(files[..k]), start, stop)
    decreases |files| - k
  {
    var last := files[|files| - 1];
    var init := files[..|files| - 1];
    assert last in files && InBundle(last);
    assert BundleStart(last).value >= stop;
    NothingInRange(last.blocks, start, stop);
    InRangeConcat(AllBlocks(init), last.blocks, start, stop);
    if k < |init| {
      assert forall f :: f in init ==> f in files;
      LaterFilesAreOutOfRange(init, k, start, stop);
      assert init[..k] == files[..k];
    } else {
      assert init == files[..k];
    }
  }

  lemma {:induction false} FixAllConcat(a: seq<BstreamBlock>, b: seq<BstreamBlock>)
    ensures FixAll(a + b)
         == match (FixAll(a), FixAll(b)) case (Some(x), Some(y)) => Some(x + y) case _ => None
    decreases |b|
  {
    hide Fixed;
    if b == [] {
      assert a + b == a;
      if FixAll(a).Some? { assert FixAll(a).value + [] == FixAll(a).value; }
    } else {
      assert (a + b)[..|a + b| - 1] == a + b[..|b| - 1];
      var init := b[..|b| - 1];
      FixAllConcat(a, init);
      if FixAll(a).Some? && FixAll(b).Some? {
        var x, y, f := FixAll(a).value, FixAll(init).value, Fixed(b[|b| - 1]).value;
        assert x + y + [f] == x + (y + [f]);
      }
    }
  }

  lemma InRangeStep(bs: seq<BstreamBlock>, i: nat, start: nat, stop: nat)
    requires i < |bs|
    ensures InRange(bs[..i + 1], start, stop)
         == InRange(bs[..i], start, stop) + if start <= bs[i].number < stop then [bs[i]] else []
  {
    assert bs[..i + 1][..i] == bs[..i];
  }

  lemma FixAllStep(bs: seq<BstreamBlock>, b: BstreamBlock)
    ensures FixAll(bs + [b])
         == match (FixAll(bs), Fixed(b)) case (Some(fs), Some(f)) => Some(fs + [f]) case _ => None
  {
    hide Fixed;
    assert (bs + [b])[..|bs|] == bs;
  }

  /** Nothing from the first block past the range on is selected. */
  lemma RestIsPastRange(bs: seq<BstreamBlock>, i: nat, start: nat, stop: nat)
    requires Ascending(bs) && i < |bs| && bs[i].number >= stop
    ensures InRange(bs, start, stop) == InRange(bs[..i], start, stop)
  {
    forall b | b in bs[i..] ensures b.number >= stop {
      var k :| 0 <= k < |bs[i..]| && bs[i..][k] == b;
      assert b == bs[i + k];
    }
    NothingInRange(bs[i..], start, stop);
    InRangeConcat(bs[..i], bs[i..], start, stop);
    assert bs[..i] + bs[i..] == bs;
  }

  /** One block that cannot be fixed fails the whole selection. */
  lemma OneFailureFailsAll(bs: seq<BstreamBlock>, i: nat, start: nat, stop: nat)
    requires i <= |bs| && FixAll(InRange(bs[..i], start, stop)) == None
    ensures FixAll(InRange(bs, start, stop)) == None
  {
    InRangeConcat(bs[..i], bs[i..], start, stop);
    assert bs[..i] + bs[i..] == bs;
    FixAllFails(InRange(bs[..i], start, stop), InRange(bs[i..], start, stop));
  }

  /** What one more block of a bundle adds to the fixed blocks of the range. */
  lemma OneMoreBlock(bs: seq<BstreamBlock>, i: nat, start: nat, stop: nat, done: seq<BstreamBlock>)
    requires i < |bs| && FixAll(InRange(bs[..i], start, stop)) == Some(done)
    ensures bs[i].number < start || bs[i].number >= stop ==> FixAll(InRange(bs[..i + 1], start, stop)) == Some(done)
    ensures start <= bs[i].number < stop ==>
      if Fixed(bs[i]).Some? then FixAll(InRange(bs[..i + 1], start, stop)) == Some(done + [Fixed(bs[i]).value])
      else FixAll(InRange(bs, start, stop)) == None
  {
    hide Fixed, InRange, FixAll;
    InRangeStep(bs, i, start, stop);
    if start <= bs[i].number < stop {
      FixAllStep(InRange(bs[..i], start, stop), bs[i]);
      if Fixed(bs[i]).None? {
        OneFailureFailsAll(bs, i + 1, start, stop);
      }
    } else {
      assert InRange(bs[..i + 1], start, stop) == InRange(bs[..i], start, stop);
    }
  }

  /** `out` is `written` followed by the fixed blocks of the range among the first `i`. */
  ghost predicate Wrote(bs: seq<BstreamBlock>, i: nat, start: nat, stop: nat, written: seq<BstreamBlock>,
      out: seq<BstreamBlock>) {
    i <= |bs| && var fixed := FixAll(InRange(bs[..i], start, stop)); fixed.Some? && out == written + fixed.value
  }

  lemma WroteNothing(bs: seq<BstreamBlock>, start: nat, stop: nat, written: seq<BstreamBlock>)
    ensures Wrote(bs, 0, start, stop, written, written)
  {
    assert bs[..0] == [] && InRange([], start, stop) == [] && FixAll([]) == Some([]);
  }

  lemma WroteNext(bs: seq<BstreamBlock>, i: nat, start: nat, stop: nat, written: seq<BstreamBlock>,
      out: seq<BstreamBlock>)
    requires i < |bs| && Wrote(bs, i, start, stop, written, out)
    ensures !(start <= bs[i].number < stop) ==> Wrote(bs, i + 1, start, stop, written, out)
    ensures start <= bs[i].number < stop ==>
      if Fixed(bs[i]).Some? then Wrote(bs, i + 1, start, stop, written, out + [Fixed(bs[i]).value])
      else FixAll(InRange(bs, start, stop)) == None
  {
    hide Fixed, InRange, FixAll;
    OneMoreBlock(bs, i, start, stop, FixAll(InRange(bs[..i], start, stop)).value);
  }

  lemma WroteAll(bs: seq<BstreamBlock>, i: nat, start: nat, stop: nat, written: seq<BstreamBlock>,
      out: seq<BstreamBlock>)
    requires Wrote(bs, i, start, stop, written, out) && (i < |bs| ==> Ascending(bs) && bs[i].number >= stop)
    ensures var fixed := FixAll(InRange(bs, start, stop)); fixed.Some? && out == written + fixed.value
  {
    hide Fixed, InRange, FixAll, Ascending;
    if i < |bs| {
      RestIsPastRange(bs, i, start, stop);
    } else {
      assert bs[..i] == bs;
    }
  }

  /** The inner loop: the blocks of one bundle, until the first past the range. */
  method FixBundle(f: File, start: uint64, stop: uint64, written: seq<BstreamBlock>)
    returns (ok: bool, out: seq<BstreamBlock>)
    requires Ascending(f.blocks)
    ensures var fixed := FixAll(InRange(f.blocks, start, stop));
      ok == fixed.Some? && (ok ==> out == written + fixed.value)
  {
    var bs := f.blocks;
    ok, out := true, written;
    WroteNothing(bs, start, stop, written);
    hide Wrote, Fixed, InRange, FixAll, Ascending;
    var i := 0;
    while i < |bs|
      invariant ok && i <= |bs| && Wrote(bs, i, start, stop, written, out)
    {
      var blk := bs[i];
      WroteNext(bs, i, start, stop, written, out);
      if blk.number < start {
        i := i + 1;
        continue;
      }
      if blk.number >= stop {
        break;
      }
      var fixed := FixBlock(blk);
      if fixed.None? {
        return false, out;
      }
      out := out + [fixed.value];
      i := i + 1;
    }
    WroteAll(bs, i, start, stop, written, out);
  }

  /**
   The rewrite command on a source without storage errors: it hands the writer exactly the
   blocks of [start, stop), in order, each fixed, or stops with an error because one of
   them cannot be fixed. `firstStreamable` allows an unaligned start.
   */
  method FixStore(files: seq<File>, start: uint64, stop: uint64, firstStreamable: uint64)
    returns (ok: bool, out: seq<BstreamBlock>)
    requires SortedBundles(files)
    ensures var fixed := FixAll(InRange(AllBlocks(files), start, stop));
      && (ok <==> (start % BUNDLE_SIZE == 0 || start == firstStreamable) && fixed.Some?)
      && (ok ==> out == fixed.value)
  {
    out := [];
    if start % BUNDLE_SIZE != 0 && start != firstStreamable {
      return false, out;
    }
    assert AllBlocks(files[..0]) == [] && InRange([], start, stop) == [] && FixAll([]) == Some([]);
    hide Fixed, InRange, FixAll, AllBlocks, BundleStart;
    for i := 0 to |files|
      invariant FixAll(InRange(AllBlocks(files[..i]), start, stop)) == Some(out)
    {
      var f := files[i];
      assert f in files && InBundle(f);
      var fileStart := BundleStart(f).value;
      if fileStart >= stop {
        LaterFilesAreOutOfRange(files, i, start, stop);
        return true, out;
      }
      BundleStep(files, i, start, stop);
      if fileStart + BUNDLE_SIZE <= start {
        NothingInRange(f.blocks, start, stop);
        assert InRange(AllBlocks(files[..i + 1]), start, stop) == InRange(AllBlocks(files[..i]), start, stop);
        continue;
      }
      FixAllConcat(InRange(AllBlocks(files[..i]), start, stop), InRange(f.blocks, start, stop));
      ok, out := FixBundle(f, start, stop, out);
      if !ok {
        BlocksOfPrefix(files, i + 1, start, stop);
        return false, out;
      }
    }
    assert files[..|files|] == files;
    return true, out;
  }

  lemma BundleStep(files: seq<File>, i: nat, start: nat, stop: nat)
    requires i < |files|
    ensures InRange(AllBlocks(files[..i + 1]), start, stop)
         == InRange(AllBlocks(files[..i]), start, stop) + InRange(files[i].blocks, start, stop)
  {
    assert files[..i + 1][..i] == files[..i];
    InRangeConcat(AllBlocks(files[..i]), files[i].blocks, start, stop);
  }

  lemma {:induction false} BlocksOfPrefix(files: seq<File>, k: nat, start: nat, stop: nat)
    requires k <= |files| && FixAll(InRange(AllBlocks(files[..k]), start, stop)) == None
    ensures FixAll(InRange(AllBlocks(files), start, stop)) == None
    decreases |files| - k
  {
    hide Fixed;
    if k < |files| {
      var init, last := files[..|files| - 1], files[|files| - 1];
      assert init[..k] == files[..k];
      BlocksOfPrefix(init, k, start, stop);
      InRangeConcat(AllBlocks(init), last.blocks, start, stop);
      FixAllFails(InRange(AllBlocks(init), start, stop), InRange(last.blocks, start, stop));
    } else {
      assert files[..k] == files;
    }
  }

  // ---- what the store's selection is ----

  /** `b` is a block of one of the files and lies in the range. */
  ghost predicate Selected(files: seq<File>, start: nat, stop: nat, b: BstreamBlock) {
    start <= b.number < stop && exists f :: f in files && b in f.blocks
  }

  lemma {:induction false} AllBlocksExactly(files: seq<File>, b: BstreamBlock)
    ensures b in AllBlocks(files) <==> exists f :: f in files && b in f.blocks
  {
    if files != [] {
      var init, last := files[..|files| - 1], files[|files| - 1];
      AllBlocksExactly(init, b);
      assert files == init + [last];
    }
  }

  lemma {:induction false} InRangeExactly(bs: seq<BstreamBlock>, start: nat, stop: nat, b: BstreamBlock)
    ensures b in InRange(bs, start, stop) <==> b in bs && start <= b.number < stop
  {
    if bs != [] {
      var init, last := bs[..|bs| - 1], bs[|bs| - 1];
      InRangeExactly(init, start, stop, b);
      assert bs == init + [last];
    }
  }

  lemma {:induction false} FixAllExactly(bs: seq<BstreamBlock>)
    ensures FixAll(bs).Some? <==> forall b :: b in bs ==> Fixed(b).Some?
    ensures FixAll(bs).Some? ==>
      |FixAll(bs).value| == |bs| && forall i :: 0 <= i < |bs| ==> Fixed(bs[i]) == Some(FixAll(bs).value[i])
  {
    hide Fixed;
    if bs != [] {
      var init, last := bs[..|bs| - 1], bs[|bs| - 1];
      FixAllExactly(init);
      assert bs == init + [last];
    }
  }

  lemma {:induction false} SelectionAscends(files: seq<File>, start: nat, stop: nat)
    requires SortedBundles(files)
    ensures Ascending(InRange(AllBlocks(files), start, stop))
  {
    AllAscend(files);
    InRangeAscends(AllBlocks(files), start, stop);
  }

  lemma {:induction false} InRangeAscends(bs: seq<BstreamBlock>, start: nat, stop: nat)
    requires Ascending(bs)
    ensures Ascending(InRange(bs, start, stop))
  {
    if bs != [] {
      var init, last := bs[..|bs| - 1], bs[|bs| - 1];
      InRangeAscends(init, start, stop);
      forall b | b in InRange(init, start, stop) ensures b.number < last.number {
        InRangeExactly(init, start, stop, b);
      }
    }
  }

  lemma {:induction false} AllAscend(files: seq<File>)
    requires SortedBundles(files)
    ensures Ascending(AllBlocks(files))
  {
    if files != [] {
      var init, last := files[..|files| - 1], files[|files| - 1];
      assert last in files && InBundle(last) && Ascending(last.blocks);
      assert forall f :: f in init ==> f in files;
      AllAscend(init);
      forall b | b in AllBlocks(init) ensures b.number < BundleStart(last).value {
        BlocksComeBefore(files, b);
      }
      hide BundleStart, AllBlocks;
      assert forall b :: b in last.blocks ==> BundleStart(last).value <= b.number;
    }
  }

  lemma BlocksComeBefore(files: seq<File>, b: BstreamBlock)
    requires files != [] && SortedBundles(files) && b in AllBlocks(files[..|files| - 1])
    ensures BundleStart(files[|files| - 1]).Some? && b.number < BundleStart(files[|files| - 1]).value
  {
    var init, last := files[..|files| - 1], files[|files| - 1];
    AllBlocksExactly(init, b);
    hide AllBlocks, BundleStart, Ascending;
    var f :| f in init && b in f.blocks;
    var i :| 0 <= i < |init| && init[i] == f;
    assert files[i] == f && f in files && last in files;
    hide InBundle;
    assert InBundle(f) && InBundle(last);
    BundlesApart(f, last, b);
  }

  lemma BundlesApart(f: File, g: File, b: BstreamBlock)
    requires InBundle(f) && InBundle(g) && b in f.blocks && BundleStart(f).Some? && BundleStart(g).Some?
    requires BundleStart(f).value < BundleStart(g).value
    ensures b.number < BundleStart(g).value
  {
    hide BundleStart;
  }

  /**
   On sorted bundles the blocks handed to the writer are in strictly ascending order, and are
   exactly the fixed blocks of the range, so there is only one such sequence; there is none
   exactly when a block of the range cannot be fixed.
   */
  lemma FixedSelection(files: seq<File>, start: nat, stop: nat)
    requires SortedBundles(files)
    ensures var fixed := FixAll(InRange(AllBlocks(files), start, stop));
      && (fixed.Some? <==> forall b :: Selected(files, start, stop, b) ==> Fixed(b).Some?)
      && (fixed.Some? ==>
            && Ascending(fixed.value)
            && (forall b :: Selected(files, start, stop, b) ==> Fixed(b).value in fixed.value)
            && (forall f :: f in fixed.value ==> exists b :: Selected(files, start, stop, b) && Fixed(b) == Some(f)))
  {
    var bs := InRange(AllBlocks(files), start, stop);
    forall b ensures b in bs <==> Selected(files, start, stop, b) {
      AllBlocksExactly(files, b);
      InRangeExactly(AllBlocks(files), start, stop, b);
    }
    SelectionAscends(files, start, stop);
    hide Fixed, Selected, InRange, AllBlocks, FixAll, SortedBundles, Ascending;
    FixAllExactly(bs);
    if FixAll(bs).Some? {
      FixedAscend(bs);
      FixedMembers(bs, FixAll(bs).value);
    }
  }

  lemma FixedMembers(bs: seq<BstreamBlock>, fs: seq<BstreamBlock>)
    requires |fs| == |bs| && forall i :: 0 <= i < |bs| ==> Fixed(bs[i]) == Some(fs[i])
    ensures forall b :: b in bs ==> Fixed(b).Some? && Fixed(b).value in fs
    ensures forall f :: f in fs ==> exists b :: b in bs && Fixed(b) == Some(f)
  {
    hide Fixed;
    forall b | b in bs ensures Fixed(b).Some? && Fixed(b).value in fs {
      var i :| 0 <= i < |bs| && bs[i] == b;
      assert fs[i] == Fixed(b).value;
    }
    forall f | f in fs ensures exists b :: b in bs && Fixed(b) == Some(f) {
      var i :| 0 <= i < |fs| && fs[i] == f;
      assert bs[i] in bs && Fixed(bs[i]) == Some(f);
    }
  }

  lemma FixedAscend(bs: seq<BstreamBlock>)
    requires Ascending(bs) && FixAll(bs).Some?
    ensures Ascending(FixAll(bs).value)
  {
    FixAllExactly(bs);
    hide FixAll;
    forall b | Fixed(b).Some? ensures Fixed(b).value.number == b.number {}
    hide Fixed;
  }
}
