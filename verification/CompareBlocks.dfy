/** What the comparison tool reports about one pair of blocks and about their transactions. */
module CompareBlocks {
  import opened Base
  import opened TextCodecs
  import opened Bstream
  import M = Messages

  /** One reported difference between the transactions that share a hash, or a hash without partner. */
  datatype TxDiff =
    | MissingInCurrent(hash: string)
    | MissingInReference(hash: string)
    | StatusDiffers(hash: string)
    | OrderDiffers(hash: string)
    | EnvelopeDiffers(hash: string)
    | ResultDiffers(hash: string)
    | EventsDiffer(hash: string)

  datatype BlockDiff =
    | NumberDiffers | IdDiffers | ParentIdDiffers
    | ReferenceUnreadable | CurrentUnreadable
    | HashDiffers | PreviousHashDiffers | LedgerVersionDiffers
    | TotalCoinsDiffer | BaseFeeDiffers | BaseReserveDiffers
    | TransactionCountDiffers
    | TransactionDiffers(tx: TxDiff)
    | PayloadsDiffer

  /** Transactions keyed by the hex of their hash; a later one replaces an earlier one. */
  function ByHash(txs: seq<M.Transaction>): map<string, M.Transaction> {
    if txs == [] then map[]
    else ByHash(txs[..|txs| - 1])[EncodeHex(txs[|txs| - 1].hash) := txs[|txs| - 1]]
  }

  predicate TxDiffers(ref: map<string, M.Transaction>, cur: map<string, M.Transaction>, d: TxDiff) {
    var h := d.hash;
    if d.MissingInCurrent? then h in ref && h !in cur
    else if d.MissingInReference? then h in cur && h !in ref
    else
      h in ref && h in cur &&
      match d
      case StatusDiffers(_) => ref[h].status != cur[h].status
      case OrderDiffers(_) => ref[h].applicationOrder != cur[h].applicationOrder
      case EnvelopeDiffers(_) => ref[h].envelopeXdr != cur[h].envelopeXdr
      case ResultDiffers(_) => ref[h].resultXdr != cur[h].resultXdr
      case EventsDiffer(_) => ref[h].events != cur[h].events
      case _ => false
  }

  /** One guarded append. */
  function AddIf(diffs: seq<BlockDiff>, differs: bool, d: BlockDiff): (r: seq<BlockDiff>)
    ensures forall x :: x in r <==> x in diffs || (differs && x == d)
  {
    if differs then diffs + [d] else diffs
  }

  method IndexByHash(txs: seq<M.Transaction>) returns (m: map<string, M.Transaction>)
    ensures m == ByHash(txs)
  {
    m := map[];
    for i := 0 to |txs|
      invariant m == ByHash(txs[..i])
    {
      assert txs[..i + 1][..i] == txs[..i];
      m := m[EncodeHex(txs[i].hash) := txs[i]];
    }
    assert txs[..|txs|] == txs;
  }

  /** The differing fields of two transactions with the same hash. */
  method ComparePair(h: string, ref: M.Transaction, cur: M.Transaction) returns (diffs: seq<TxDiff>)
    ensures forall d :: d in diffs <==> d.hash == h && TxDiffers(map[h := ref], map[h := cur], d)
  {
    diffs := [];
    if ref != cur {
      if ref.status != cur.status { diffs := diffs + [StatusDiffers(h)]; }
      if ref.applicationOrder != cur.applicationOrder { diffs := diffs + [OrderDiffers(h)]; }
      if ref.envelopeXdr != cur.envelopeXdr { diffs := diffs + [EnvelopeDiffers(h)]; }
      if ref.resultXdr != cur.resultXdr { diffs := diffs + [ResultDiffers(h)]; }
      if ref.events != cur.events { diffs := diffs + [EventsDiffer(h)]; }
    }
  }

  /** The transaction matcher; its maps are walked in no particular order. */
  method CompareTransactionSlices(ref: seq<M.Transaction>, cur: seq<M.Transaction>) returns (diffs: seq<TxDiff>)
    ensures forall d :: d in diffs <==> TxDiffers(ByHash(ref), ByHash(cur), d)
  {
    diffs := [];
    var refByHash := IndexByHash(ref);
    var curByHash := IndexByHash(cur);
    var todo := refByHash.Keys;
    while todo != {}
      invariant todo <= refByHash.Keys
      invariant forall d :: d in diffs <==> d.hash in refByHash && d.hash !in todo && TxDiffers(refByHash, curByHash, d)
      decreases todo
    {
      var h :| h in todo;
      todo := todo - {h};
      if h !in curByHash {
        diffs := diffs + [MissingInCurrent(h)];
      } else {
        var pair := ComparePair(h, refByHash[h], curByHash[h]);
        assert forall d :: d in pair <==> d.hash == h && TxDiffers(refByHash, curByHash, d);
        diffs := diffs + pair;
      }
    }
    ghost var refDiffs := diffs;
    todo := curByHash.Keys;
    while todo != {}
      invariant todo <= curByHash.Keys
      invariant forall d :: d in diffs <==>
        d in refDiffs || (d.MissingInReference? && d.hash in curByHash && d.hash !in todo && d.hash !in refByHash)
      decreases todo
    {
      var h :| h in todo;
      todo := todo - {h};
      if h !in refByHash {
        diffs := diffs + [MissingInReference(h)];
      }
    }
  }

  // ---- what the matcher decides ----

  predicate DistinctHashes(txs: seq<M.Transaction>) {
    forall i, j :: 0 <= i < j < |txs| ==> txs[i].hash != txs[j].hash
  }

  /** Equal in every field the matcher looks at. */
  predicate Agree(s: M.Transaction, t: M.Transaction) {
    && s.status == t.status && s.applicationOrder == t.applicationOrder
    && s.envelopeXdr == t.envelopeXdr && s.resultXdr == t.resultXdr && s.events == t.events
  }

  ghost predicate NoTxDiffs(ref: seq<M.Transaction>, cur: seq<M.Transaction>) {
    forall d :: !TxDiffers(ByHash(ref), ByHash(cur), d)
  }

  lemma {:induction false} ByHashFinds(txs: seq<M.Transaction>, h: string)
    requires DistinctHashes(txs)
    ensures h in ByHash(txs) <==> exists i :: 0 <= i < |txs| && EncodeHex(txs[i].hash) == h
    ensures forall i :: 0 <= i < |txs| && EncodeHex(txs[i].hash) == h ==> ByHash(txs)[h] == txs[i]
  {
    hide EncodeHex;
    if txs != [] {
      var n := |txs| - 1;
      var init, last := txs[..n], txs[n];
      ByHashFinds(init, h);
      forall i | 0 <= i < n && EncodeHex(txs[i].hash) == h
        ensures EncodeHex(last.hash) != h && ByHash(txs)[h] == txs[i]
      {
        HexIsInjective(txs[i].hash, last.hash);
        assert init[i] == txs[i];
      }
      if h in ByHash(init) {
        var i :| 0 <= i < n && EncodeHex(init[i].hash) == h;
        assert EncodeHex(txs[i].hash) == h;
      }
    }
  }

  /** The last transaction with this hash. */
  predicate LastWithHash(txs: seq<M.Transaction>, hash: bytes, i: nat) {
    i < |txs| && txs[i].hash == hash && forall j :: i < j < |txs| ==> txs[j].hash != hash
  }

  /** Also where hashes repeat: the table has the last transaction of each hash. */
  lemma {:induction false} TableHasTheLast(txs: seq<M.Transaction>, hash: bytes)
    ensures EncodeHex(hash) in ByHash(txs) <==> exists i: nat :: LastWithHash(txs, hash, i)
    ensures forall i: nat :: LastWithHash(txs, hash, i) ==> ByHash(txs)[EncodeHex(hash)] == txs[i]
  {
    hide EncodeHex;
    if txs != [] {
      var n := |txs| - 1;
      var init := txs[..n];
      TableHasTheLast(init, hash);
      HexIsInjective(txs[n].hash, hash);
      if txs[n].hash == hash {
        assert LastWithHash(txs, hash, n);
      } else {
        forall i: nat ensures LastWithHash(txs, hash, i) <==> LastWithHash(init, hash, i) {}
      }
    }
  }

  /** Some transaction of `txs` has this hash. */
  predicate HasHash(txs: seq<M.Transaction>, hash: bytes) {
    exists i :: 0 <= i < |txs| && txs[i].hash == hash
  }

  /** No difference between maps: same keys, and the transactions under a key agree. */
  lemma NoDiffsBetweenMaps(ref: map<string, M.Transaction>, cur: map<string, M.Transaction>)
    ensures (forall d :: !TxDiffers(ref, cur, d)) <==>
      ref.Keys == cur.Keys && forall h :: h in ref && h in cur ==> Agree(ref[h], cur[h])
  {
    if forall d :: !TxDiffers(ref, cur, d) {
      forall h | h in ref ensures h in cur { assert !TxDiffers(ref, cur, MissingInCurrent(h)); }
      forall h | h in cur ensures h in ref { assert !TxDiffers(ref, cur, MissingInReference(h)); }
      forall h | h in ref && h in cur ensures Agree(ref[h], cur[h]) {
        assert !TxDiffers(ref, cur, StatusDiffers(h)) && !TxDiffers(ref, cur, OrderDiffers(h));
        assert !TxDiffers(ref, cur, EnvelopeDiffers(h)) && !TxDiffers(ref, cur, ResultDiffers(h));
        assert !TxDiffers(ref, cur, EventsDiffer(h));
      }
    }
  }

  /**
   With distinct hashes on each side, the matcher reports nothing exactly when both sides
   hold the same hashes and transactions with the same hash agree.
   */
  lemma MatchingIsExact(ref: seq<M.Transaction>, cur: seq<M.Transaction>)
    requires DistinctHashes(ref) && DistinctHashes(cur)
    ensures NoTxDiffs(ref, cur) <==>
      && (forall i :: 0 <= i < |ref| ==> HasHash(cur, ref[i].hash))
      && (forall j :: 0 <= j < |cur| ==> HasHash(ref, cur[j].hash))
      && (forall i, j :: 0 <= i < |ref| && 0 <= j < |cur| && ref[i].hash == cur[j].hash ==> Agree(ref[i], cur[j]))
  {
    hide EncodeHex, ByHash, TxDiffers, Agree;
    var r, c := ByHash(ref), ByHash(cur);
    NoDiffsBetweenMaps(r, c);
    forall i | 0 <= i < |ref| ensures EncodeHex(ref[i].hash) in r && r[EncodeHex(ref[i].hash)] == ref[i] {
      ByHashFinds(ref, EncodeHex(ref[i].hash));
    }
    forall j | 0 <= j < |cur| ensures EncodeHex(cur[j].hash) in c && c[EncodeHex(cur[j].hash)] == cur[j] {
      ByHashFinds(cur, EncodeHex(cur[j].hash));
    }
    forall i | 0 <= i < |ref| ensures EncodeHex(ref[i].hash) in c <==> HasHash(cur, ref[i].hash) {
      KeyedByHash(cur, ref[i].hash);
    }
    forall j | 0 <= j < |cur| ensures EncodeHex(cur[j].hash) in r <==> HasHash(ref, cur[j].hash) {
      KeyedByHash(ref, cur[j].hash);
    }
    forall h | h in r ensures exists i :: 0 <= i < |ref| && EncodeHex(ref[i].hash) == h { ByHashFinds(ref, h); }
    forall h | h in c ensures exists j :: 0 <= j < |cur| && EncodeHex(cur[j].hash) == h { ByHashFinds(cur, h); }
    MatchingThroughKeys(ref, cur, r, c);
  }

  lemma KeyedByHash(txs: seq<M.Transaction>, hash: bytes)
    requires DistinctHashes(txs)
    ensures EncodeHex(hash) in ByHash(txs) <==> HasHash(txs, hash)
  {
    ByHashFinds(txs, EncodeHex(hash));
    forall i | 0 <= i < |txs| ensures EncodeHex(txs[i].hash) == EncodeHex(hash) <==> txs[i].hash == hash {
      HexIsInjective(txs[i].hash, hash);
    }
  }

  /** The statement about keys is the statement about positions. */
  lemma MatchingThroughKeys(ref: seq<M.Transaction>, cur: seq<M.Transaction>,
      r: map<string, M.Transaction>, c: map<string, M.Transaction>)
    requires forall i :: 0 <= i < |ref| ==> EncodeHex(ref[i].hash) in r && r[EncodeHex(ref[i].hash)] == ref[i]
    requires forall j :: 0 <= j < |cur| ==> EncodeHex(cur[j].hash) in c && c[EncodeHex(cur[j].hash)] == cur[j]
    requires forall i :: 0 <= i < |ref| ==> (EncodeHex(ref[i].hash) in c <==> HasHash(cur, ref[i].hash))
    requires forall j :: 0 <= j < |cur| ==> (EncodeHex(cur[j].hash) in r <==> HasHash(ref, cur[j].hash))
    requires forall h :: h in r ==> exists i :: 0 <= i < |ref| && EncodeHex(ref[i].hash) == h
    requires forall h :: h in c ==> exists j :: 0 <= j < |cur| && EncodeHex(cur[j].hash) == h
    ensures (r.Keys == c.Keys && forall h :: h in r && h in c ==> Agree(r[h], c[h])) <==>
      && (forall i :: 0 <= i < |ref| ==> HasHash(cur, ref[i].hash))
      && (forall j :: 0 <= j < |cur| ==> HasHash(ref, cur[j].hash))
      && (forall i, j :: 0 <= i < |ref| && 0 <= j < |cur| && ref[i].hash == cur[j].hash ==> Agree(ref[i], cur[j]))
  {
    hide EncodeHex, Agree, HasHash;
    if r.Keys == c.Keys && forall h :: h in r && h in c ==> Agree(r[h], c[h]) {
      forall i, j | 0 <= i < |ref| && 0 <= j < |cur| && ref[i].hash == cur[j].hash ensures Agree(ref[i], cur[j]) {
        assert Agree(r[EncodeHex(ref[i].hash)], c[EncodeHex(cur[j].hash)]);
      }
    } else if
      && (forall i :: 0 <= i < |ref| ==> HasHash(cur, ref[i].hash))
      && (forall j :: 0 <= j < |cur| ==> HasHash(ref, cur[j].hash))
      && (forall i, j :: 0 <= i < |ref| && 0 <= j < |cur| && ref[i].hash == cur[j].hash ==> Agree(ref[i], cur[j]))
    {
      assert r.Keys == c.Keys;
      forall h | h in r && h in c ensures Agree(r[h], c[h]) {
        var i :| 0 <= i < |ref| && EncodeHex(ref[i].hash) == h;
        var j :| 0 <= j < |cur| && EncodeHex(cur[j].hash) == h;
        HexIsInjective(ref[i].hash, cur[j].hash);
      }
    }
  }

  predicate NumberedInOrder(txs: seq<M.Transaction>) {
    forall i :: 0 <= i < |txs| ==> txs[i].applicationOrder == i + 1
  }

  /** If both sides number their transactions from one, silence means agreement position by position. */
  lemma SilenceMeansSamePositions(ref: seq<M.Transaction>, cur: seq<M.Transaction>)
    requires DistinctHashes(ref) && DistinctHashes(cur) && |ref| == |cur|
    requires NumberedInOrder(ref) && NumberedInOrder(cur)
    ensures NoTxDiffs(ref, cur) <==>
      forall i :: 0 <= i < |ref| ==> ref[i].hash == cur[i].hash && Agree(ref[i], cur[i])
  {
    hide ByHash, TxDiffers;
    MatchingIsExact(ref, cur);
    if NoTxDiffs(ref, cur) {
      forall i | 0 <= i < |ref| ensures ref[i].hash == cur[i].hash && Agree(ref[i], cur[i]) {
        assert HasHash(cur, ref[i].hash);
        var j :| 0 <= j < |cur| && cur[j].hash == ref[i].hash;
        assert Agree(ref[i], cur[j]);
        assert i + 1 == ref[i].applicationOrder == cur[j].applicationOrder == j + 1;
      }
    } else if forall i :: 0 <= i < |ref| ==> ref[i].hash == cur[i].hash && Agree(ref[i], cur[i]) {
      forall i | 0 <= i < |ref| ensures HasHash(cur, ref[i].hash) && HasHash(ref, cur[i].hash) {
      }
      forall i, j | 0 <= i < |ref| && 0 <= j < |cur| && ref[i].hash == cur[j].hash ensures Agree(ref[i], cur[j]) {
        assert ref[j].hash == cur[j].hash;
        assert i == j;
      }
    }
  }

  // ---- one pair of blocks ----

  /** Both headers are present. */
  predicate Headers(r: M.Block, c: M.Block) { r.header.Some? && c.header.Some? }

  /** A difference with a name of its own. */
  ghost predicate NamedDiff(ref: BstreamBlock, cur: BstreamBlock, d: BlockDiff) {
    match d
    case NumberDiffers => ref.number != cur.number
    case IdDiffers => ref.id != cur.id
    case ParentIdDiffers => ref.parentId != cur.parentId
    case ReferenceUnreadable => Unpack(ref.payload).None?
    case CurrentUnreadable => Unpack(ref.payload).Some? && Unpack(cur.payload).None?
    case PayloadsDiffer => false
    case _ =>
      Unpack(ref.payload).Some? && Unpack(cur.payload).Some? &&
      PayloadDiff(Unpack(ref.payload).value, Unpack(cur.payload).value, d)
  }

  ghost predicate PayloadDiff(r: M.Block, c: M.Block, d: BlockDiff) {
    match d
    case HashDiffers => r.hash != c.hash
    case PreviousHashDiffers => Headers(r, c) && r.header.value.previousLedgerHash != c.header.value.previousLedgerHash
    case LedgerVersionDiffers => Headers(r, c) && r.header.value.ledgerVersion != c.header.value.ledgerVersion
    case TotalCoinsDiffer => Headers(r, c) && r.header.value.totalCoins != c.header.value.totalCoins
    case BaseFeeDiffers => Headers(r, c) && r.header.value.baseFee != c.header.value.baseFee
    case BaseReserveDiffers => Headers(r, c) && r.header.value.baseReserve != c.header.value.baseReserve
    case TransactionCountDiffers => |r.transactions| != |c.transactions|
    case TransactionDiffers(t) =>
      |r.transactions| == |c.transactions| && TxDiffers(ByHash(r.transactions), ByHash(c.transactions), t)
    case _ => false
  }

  /** The hash and the header fields that differ. */
  method CompareHeaders(r: M.Block, c: M.Block) returns (diffs: seq<BlockDiff>)
    ensures forall d :: d in diffs <==>
      !d.TransactionCountDiffers? && !d.TransactionDiffers? && PayloadDiff(r, c, d)
  {
    hide AddIf;
    diffs := [];
    diffs := AddIf(diffs, r.hash != c.hash, HashDiffers);
    if r.header.Some? && c.header.Some? {
      var rh, ch := r.header.value, c.header.value;
      diffs := AddIf(diffs, rh.previousLedgerHash != ch.previousLedgerHash, PreviousHashDiffers);
      diffs := AddIf(diffs, rh.ledgerVersion != ch.ledgerVersion, LedgerVersionDiffers);
      diffs := AddIf(diffs, rh.totalCoins != ch.totalCoins, TotalCoinsDiffer);
      diffs := AddIf(diffs, rh.baseFee != ch.baseFee, BaseFeeDiffers);
      diffs := AddIf(diffs, rh.baseReserve != ch.baseReserve, BaseReserveDiffers);
    }
  }

  /** The fields of two unequal payloads that differ by name. */
  method ComparePayloads(r: M.Block, c: M.Block) returns (diffs: seq<BlockDiff>)
    ensures forall d :: d in diffs <==> PayloadDiff(r, c, d)
  {
    hide ByHash, TxDiffers;
    diffs := CompareHeaders(r, c);
    if |r.transactions| != |c.transactions| {
      diffs := diffs + [TransactionCountDiffers];
    } else {
      var perTx := CompareTransactionSlices(r.transactions, c.transactions);
      var more := seq(|perTx|, i requires 0 <= i < |perTx| => TransactionDiffers(perTx[i]));
      forall d: BlockDiff | d.TransactionDiffers? && d.tx in perTx ensures d in more {
        var i :| 0 <= i < |perTx| && perTx[i] == d.tx;
        assert more[i] == d;
      }
      diffs := diffs + more;
    }
  }

  /**
   compareSingleBlock: every named difference, and a catch-all when the payloads differ in
   something that has no name.
   */
  method CompareSingleBlock(ref: BstreamBlock, cur: BstreamBlock) returns (diffs: seq<BlockDiff>)
    ensures forall d :: d != PayloadsDiffer ==> (d in diffs <==> NamedDiff(ref, cur, d))
    ensures PayloadsDiffer in diffs <==>
      && Unpack(ref.payload).Some? && Unpack(cur.payload).Some? && Unpack(ref.payload) != Unpack(cur.payload)
      && forall d :: !NamedDiff(ref, cur, d)
    ensures diffs == [] <==> SameBlock(ref, cur)
  {
    hide Unpack, PayloadDiff;
    diffs := [];
    if ref.number != cur.number { diffs := diffs + [NumberDiffers]; }
    if ref.id != cur.id { diffs := diffs + [IdDiffers]; }
    if ref.parentId != cur.parentId { diffs := diffs + [ParentIdDiffers]; }
    var refStellar := Unpack(ref.payload);
    if refStellar.None? {
      diffs := diffs + [ReferenceUnreadable];
      return;
    }
    var curStellar := Unpack(cur.payload);
    if curStellar.None? {
      diffs := diffs + [CurrentUnreadable];
      return;
    }
    EqualPayloadsHaveNoDiff(refStellar.value, curStellar.value);
    OnlyPayloadDiffs(refStellar.value, curStellar.value);
    ghost var outer := diffs;
    if refStellar.value != curStellar.value {
      var more := ComparePayloads(refStellar.value, curStellar.value);
      diffs := diffs + more;
      assert forall d :: d != PayloadsDiffer ==> (d in diffs <==> NamedDiff(ref, cur, d));
      if |diffs| == 0 {
        diffs := diffs + [PayloadsDiffer];
      } else {
        assert NamedDiff(ref, cur, diffs[0]);
      }
    }
  }

  /** The outcome the tool counts as equal. */
  ghost predicate SameBlock(ref: BstreamBlock, cur: BstreamBlock) {
    && ref.number == cur.number && ref.id == cur.id && ref.parentId == cur.parentId
    && Unpack(ref.payload).Some? && Unpack(ref.payload) == Unpack(cur.payload)
  }

  lemma EqualPayloadsHaveNoDiff(r: M.Block, c: M.Block)
    ensures r == c ==> forall d :: !PayloadDiff(r, c, d)
  {
    hide ByHash;
  }

  lemma OnlyPayloadDiffs(r: M.Block, c: M.Block)
    ensures forall d :: PayloadDiff(r, c, d) ==>
      !d.NumberDiffers? && !d.IdDiffers? && !d.ParentIdDiffers? && !d.ReferenceUnreadable? && !d.CurrentUnreadable?
      && !d.PayloadsDiffer?
  {
    hide ByHash, TxDiffers;
  }
}
