/**
 From one closed ledger to one block: the captive-core conversion and the JSON-RPC one, both
 through base64 and hex text, and the direct construction both amount to.
 */
module Ledger {
  import opened Base
  import opened TextCodecs
  import opened Bstream
  import M = Messages
  import RT = RoundTrip

  /** The binary form of a part of a ledger; None where marshalling it fails. */
  type Marshalled = Option<bytes>

  /** Events grouped by operation; a group may be nil. */
  datatype GroupedEvents = GroupedEvents(transaction: seq<Marshalled>, operations: seq<Option<seq<Marshalled>>>)

  /** A transaction as the ledger reader gives it; None where reading its events fails. */
  datatype LedgerTransaction = LedgerTransaction(
    hash: bytes, envelope: Marshalled, result: Marshalled, successful: bool,
    diagnostic: Option<seq<Marshalled>>, events: Option<GroupedEvents>)

  datatype LedgerEntry = LedgerEntry(
    hash: bytes, sequence: uint32, previousHash: bytes, closeTime: uint64,
    version: uint32, totalCoins: int64, baseFee: uint32, baseReserve: uint32)

  /** Close metadata: one entry per version, and the transactions its reader yields before it may fail. */
  datatype CloseMeta = CloseMeta(
    v0: Option<LedgerEntry>, v1: Option<LedgerEntry>, v2: Option<LedgerEntry>,
    transactions: seq<LedgerTransaction>, readFails: bool)

  const STATUS_SUCCESS: int32 := 1
  const STATUS_FAILED: int32 := 2

  // ---- the direct construction ----

  /** The events that marshal, in order. */
  function Kept(ms: seq<Marshalled>): (bs: seq<bytes>)
    ensures |bs| <= |ms|
  {
    if ms == [] then []
    else
      var last := ms[|ms| - 1];
      Kept(ms[..|ms| - 1]) + if last.Some? then [last.value] else []
  }

  /** The groups that are not nil, empty ones included, in order. */
  function Groups(ops: seq<Option<seq<Marshalled>>>): seq<seq<bytes>> {
    if ops == [] then []
    else
      var last := ops[|ops| - 1];
      Groups(ops[..|ops| - 1]) + if last.Some? then [Kept(last.value)] else []
  }

  function ContractEvents(groups: seq<seq<bytes>>): seq<M.ContractEvent> {
    seq(|groups|, i requires 0 <= i < |groups| => M.ContractEvent(groups[i], []))
  }

  /** All events of a transaction, or none when some cannot be read. */
  function EventsOf(tx: LedgerTransaction): M.Events {
    match (tx.diagnostic, tx.events)
    case (Some(d), Some(e)) => M.Events(Kept(d), Kept(e.transaction), ContractEvents(Groups(e.operations)), [])
    case _ => M.NO_EVENTS
  }

  function At(seconds: int64): M.Timestamp { M.Timestamp(seconds, 0, []) }

  predicate Marshals(tx: LedgerTransaction) { tx.envelope.Some? && tx.result.Some? }

  function TransactionOf(tx: LedgerTransaction, order: uint64, closeTime: int64): M.Transaction
    requires Marshals(tx)
  {
    M.Transaction(
      tx.hash, if tx.successful then STATUS_SUCCESS else STATUS_FAILED, Some(At(closeTime)), order,
      tx.envelope.value, tx.result.value, Some(EventsOf(tx)), [])
  }

  /** The transactions in ledger order, numbered from 1. */
  function TransactionsOf(txs: seq<LedgerTransaction>, closeTime: int64): (r: seq<M.Transaction>)
    requires |txs| < TWO_63 && forall i :: 0 <= i < |txs| ==> Marshals(txs[i])
    ensures |r| == |txs|
    ensures forall i :: 0 <= i < |txs| ==> r[i] == TransactionOf(txs[i], i + 1, closeTime)
  {
    seq(|txs|, i requires 0 <= i < |txs| => TransactionOf(txs[i], i + 1, closeTime))
  }

  function BlockOf(entry: LedgerEntry, number: uint64, hash: bytes, closeTime: int64,
      txs: seq<M.Transaction>): (b: M.Block)
    ensures b.header.Some?
  {
    M.Block(
      number, hash,
      Some(M.Header(entry.version, entry.previousHash, entry.totalCoins, entry.baseFee, entry.baseReserve, [])),
      1, txs, Some(At(closeTime)), [])
  }

  /** Wraps a block; the previous number is also the last irreversible one. */
  function Wrapped(b: M.Block): Option<BstreamBlock>
    requires b.header.Some?
  {
    var any := Pack(b);
    if any.None? then None
    else Some(BstreamBlock(
      b.number, EncodeHex(b.hash), EncodeHex(b.header.value.previousLedgerHash), b.createdAt,
      ToUint64(b.number - 1), ToUint64(b.number - 1), any.value))
  }

  /** The block of a ledger whose parts can all be read. */
  function Direct(entry: LedgerEntry, meta: CloseMeta): Option<BstreamBlock>
    requires |meta.transactions| < TWO_63
  {
    if meta.readFails || exists i :: 0 <= i < |meta.transactions| && !Marshals(meta.transactions[i]) then None
    else
      var closeTime := ToInt64(entry.closeTime);
      Wrapped(BlockOf(entry, entry.sequence, entry.hash, closeTime, TransactionsOf(meta.transactions, closeTime)))
  }

  // ---- transactions as text ----

  datatype TextEvents = TextEvents(diagnostic: seq<string>, transaction: seq<string>, contract: seq<seq<string>>)

  datatype TextTransaction = TextTransaction(
    txHash: string, envelopeXdr: string, resultXdr: string, status: string, events: Option<TextEvents>)

  function Texts(bss: seq<bytes>): seq<string> { seq(|bss|, i requires 0 <= i < |bss| => EncodeB64(bss[i])) }

  function TextGroups(groups: seq<seq<bytes>>): seq<seq<string>> {
    seq(|groups|, i requires 0 <= i < |groups| => Texts(groups[i]))
  }

  function TextEventsOf(tx: LedgerTransaction): Option<TextEvents> {
    match (tx.diagnostic, tx.events)
    case (Some(d), Some(e)) =>
      Some(TextEvents(Texts(Kept(d)), Texts(Kept(e.transaction)), TextGroups(Groups(e.operations))))
    case _ => None
  }

  function TextOf(tx: LedgerTransaction): Option<TextTransaction> {
    if !Marshals(tx) then None
    else Some(TextTransaction(
      EncodeHex(tx.hash), EncodeB64(tx.envelope.value), EncodeB64(tx.result.value),
      if tx.successful then "SUCCESS" else "FAILED", TextEventsOf(tx)))
  }

  function TextsOf(txs: seq<LedgerTransaction>): (r: Option<seq<TextTransaction>>)
    ensures r.Some? ==> |r.value| == |txs|
  {
    if txs == [] then Some([])
    else
      match (TextsOf(txs[..|txs| - 1]), TextOf(txs[|txs| - 1]))
      case (Some(init), Some(last)) => Some(init + [last])
      case _ => None
  }

  method EncodeEvents(ms: seq<Marshalled>) returns (texts: seq<string>)
    ensures texts == Texts(Kept(ms))
  {
    texts := [];
    for i := 0 to |ms|
      invariant texts == Texts(Kept(ms[..i]))
    {
      assert ms[..i + 1][..i] == ms[..i];
      if ms[i].None? {
        continue;
      }
      texts := texts + [EncodeB64(ms[i].value)];
    }
    assert ms[..|ms|] == ms;
  }

  method ConvertEvents(tx: LedgerTransaction) returns (r: Option<TextEvents>)
    ensures r == TextEventsOf(tx)
  {
    if tx.diagnostic.None? {
      return None;
    }
    var diagnostic := EncodeEvents(tx.diagnostic.value);
    if tx.events.None? {
      return None;
    }
    var transaction := EncodeEvents(tx.events.value.transaction);
    var contract := EncodeGroups(tx.events.value.operations);
    return Some(TextEvents(diagnostic, transaction, contract));
  }

  method EncodeGroups(ops: seq<Option<seq<Marshalled>>>) returns (texts: seq<seq<string>>)
    ensures texts == TextGroups(Groups(ops))
  {
    texts := [];
    for i := 0 to |ops|
      invariant texts == TextGroups(Groups(ops[..i]))
    {
      assert ops[..i + 1][..i] == ops[..i];
      if ops[i].None? {
        continue;
      }
      var group := EncodeEvents(ops[i].value);
      texts := texts + [group];
    }
    assert ops[..|ops|] == ops;
  }

  method ConvertLedgerTransactionToTypes(tx: LedgerTransaction) returns (r: Option<TextTransaction>)
    ensures r == TextOf(tx)
  {
    if tx.envelope.None? {
      return None;
    }
    var envelope := EncodeB64(tx.envelope.value);
    if tx.result.None? {
      return None;
    }
    var result := EncodeB64(tx.result.value);
    var status := "UNKNOWN";
    if tx.successful {
      status := "SUCCESS";
    } else {
      status := "FAILED";
    }
    var events := ConvertEvents(tx);
    return Some(TextTransaction(EncodeHex(tx.hash), envelope, result, status, events));
  }

  function TextsOfMeta(meta: CloseMeta): (r: Option<seq<TextTransaction>>)
    ensures r.Some? ==> |r.value| == |meta.transactions|
  {
    if meta.readFails then None else TextsOf(meta.transactions)
  }

  method ExtractTransactions(meta: CloseMeta) returns (r: Option<seq<TextTransaction>>)
    ensures r == TextsOfMeta(meta)
  {
    var txs := meta.transactions;
    var out := [];
    for i := 0 to |txs|
      invariant TextsOf(txs[..i]) == Some(out)
    {
      assert txs[..i + 1][..i] == txs[..i];
      var text := ConvertLedgerTransactionToTypes(txs[i]);
      if text.None? {
        TextsOfPrefix(txs, i + 1);
        return None;
      }
      out := out + [text.value];
    }
    assert txs[..|txs|] == txs;
    if meta.readFails {
      return None;
    }
    return Some(out);
  }

  lemma {:induction false} TextsOfPrefix(txs: seq<LedgerTransaction>, k: nat)
    requires k <= |txs| && TextsOf(txs[..k]).None?
    ensures TextsOf(txs).None?
    decreases |txs| - k
  {
    if k < |txs| {
      assert txs[..|txs| - 1][..k] == txs[..k];
      TextsOfPrefix(txs[..|txs| - 1], k);
    } else {
      assert txs[..k] == txs;
    }
  }

  // ---- from text back to bytes ----

  function DecodeAll(texts: seq<string>): (r: Option<seq<bytes>>)
    ensures r.Some? ==> |r.value| == |texts|
  {
    if texts == [] then Some([])
    else
      match (DecodeAll(texts[..|texts| - 1]), DecodeB64(texts[|texts| - 1]))
      case (Some(init), Some(last)) => Some(init + [last])
      case _ => None
  }

  function DecodeGroups(groups: seq<seq<string>>): (r: Option<seq<M.ContractEvent>>)
    ensures r.Some? ==> |r.value| == |groups|
  {
    if groups == [] then Some([])
    else
      match (DecodeGroups(groups[..|groups| - 1]), DecodeAll(groups[|groups| - 1]))
      case (Some(init), Some(last)) => Some(init + [M.ContractEvent(last, [])])
      case _ => None
  }

  function DecodeEvents(events: Option<TextEvents>): Option<M.Events> {
    match events
    case None => Some(M.NO_EVENTS)
    case Some(e) =>
      match (DecodeAll(e.diagnostic), DecodeAll(e.transaction), DecodeGroups(e.contract))
      case (Some(d), Some(t), Some(c)) => Some(M.Events(d, t, c, []))
      case _ => None
  }

  /** Any status but "SUCCESS" counts as failed. */
  function ConvertTransactionStatus(status: string): int32 {
    if status == "SUCCESS" then STATUS_SUCCESS else STATUS_FAILED
  }

  function Decoded(t: TextTransaction, order: uint64, closeTime: int64): Option<M.Transaction> {
    match (DecodeHex(t.txHash), DecodeB64(t.envelopeXdr), DecodeB64(t.resultXdr), DecodeEvents(t.events))
    case (Some(hash), Some(envelope), Some(result), Some(events)) =>
      Some(M.Transaction(
        hash, ConvertTransactionStatus(t.status), Some(At(closeTime)), order, envelope, result, Some(events), []))
    case _ => None
  }

  function DecodedAll(ts: seq<TextTransaction>, closeTime: int64): (r: Option<seq<M.Transaction>>)
    requires |ts| < TWO_63
    ensures r.Some? ==> |r.value| == |ts|
  {
    if ts == [] then Some([])
    else
      match (DecodedAll(ts[..|ts| - 1], closeTime), Decoded(ts[|ts| - 1], |ts|, closeTime))
      case (Some(init), Some(last)) => Some(init + [last])
      case _ => None
  }

  method DecodeTexts(texts: seq<string>) returns (r: Option<seq<bytes>>)
    ensures r == DecodeAll(texts)
  {
    var out := [];
    for i := 0 to |texts|
      invariant DecodeAll(texts[..i]) == Some(out)
    {
      assert texts[..i + 1][..i] == texts[..i];
      var decoded := DecodeB64(texts[i]);
      if decoded.None? {
        DecodeAllOfPrefix(texts, i + 1);
        return None;
      }
      out := out + [decoded.value];
    }
    assert texts[..|texts|] == texts;
    return Some(out);
  }

  lemma {:induction false} DecodeAllOfPrefix(texts: seq<string>, k: nat)
    requires k <= |texts| && DecodeAll(texts[..k]).None?
    ensures DecodeAll(texts).None?
    decreases |texts| - k
  {
    if k < |texts| {
      assert texts[..|texts| - 1][..k] == texts[..k];
      DecodeAllOfPrefix(texts[..|texts| - 1], k);
    } else {
      assert texts[..k] == texts;
    }
  }

  method DecodeEventGroups(groups: seq<seq<string>>) returns (r: Option<seq<M.ContractEvent>>)
    ensures r == DecodeGroups(groups)
  {
    var out := [];
    for i := 0 to |groups|
      invariant DecodeGroups(groups[..i]) == Some(out)
    {
      assert groups[..i + 1][..i] == groups[..i];
      var inner := DecodeTexts(groups[i]);
      if inner.None? {
        DecodeGroupsOfPrefix(groups, i + 1);
        return None;
      }
      out := out + [M.ContractEvent(inner.value, [])];
    }
    assert groups[..|groups|] == groups;
    return Some(out);
  }

  lemma {:induction false} DecodeGroupsOfPrefix(groups: seq<seq<string>>, k: nat)
    requires k <= |groups| && DecodeGroups(groups[..k]).None?
    ensures DecodeGroups(groups).None?
    decreases |groups| - k
  {
    if k < |groups| {
      assert groups[..|groups| - 1][..k] == groups[..k];
      DecodeGroupsOfPrefix(groups[..|groups| - 1], k);
    } else {
      assert groups[..k] == groups;
    }
  }

  method DecodeTextEvents(events: Option<TextEvents>) returns (r: Option<M.Events>)
    ensures r == DecodeEvents(events)
  {
    if events.None? {
      return Some(M.NO_EVENTS);
    }
    var diagnostic := DecodeTexts(events.value.diagnostic);
    if diagnostic.None? {
      return None;
    }
    var transaction := DecodeTexts(events.value.transaction);
    if transaction.None? {
      return None;
    }
    var contract := DecodeEventGroups(events.value.contract);
    if contract.None? {
      return None;
    }
    return Some(M.Events(diagnostic.value, transaction.value, contract.value, []));
  }

  lemma {:induction false} DecodedAllOfPrefix(ts: seq<TextTransaction>, k: nat, closeTime: int64)
    requires k <= |ts| < TWO_63 && DecodedAll(ts[..k], closeTime).None?
    ensures DecodedAll(ts, closeTime).None?
    decreases |ts| - k
  {
    if k < |ts| {
      assert ts[..|ts| - 1][..k] == ts[..k];
      DecodedAllOfPrefix(ts[..|ts| - 1], k, closeTime);
    } else {
      assert ts[..k] == ts;
    }
  }

  // ---- decoding undoes encoding ----

  lemma {:induction false} TextsRoundTrip(bss: seq<bytes>)
    ensures DecodeAll(Texts(bss)) == Some(bss)
  {
    if bss != [] {
      var init := bss[..|bss| - 1];
      TextsRoundTrip(init);
      B64RoundTrip(bss[|bss| - 1]);
      assert |Texts(bss)| == |bss| && Texts(bss)[..|bss| - 1] == Texts(init);
      assert bss == init + [bss[|bss| - 1]];
    }
  }

  lemma {:induction false} GroupsRoundTrip(groups: seq<seq<bytes>>)
    ensures DecodeGroups(TextGroups(groups)) == Some(ContractEvents(groups))
  {
    if groups == [] {
      assert TextGroups(groups) == [] && ContractEvents(groups) == [];
    } else {
      var init, last := groups[..|groups| - 1], groups[|groups| - 1];
      GroupsLonger(groups);
      hide DecodeGroups, DecodeAll, TextGroups, ContractEvents, Texts;
      GroupsRoundTrip(init);
      TextsRoundTrip(last);
      DecodeGroupsLonger(TextGroups(init), Texts(last));
    }
  }

  lemma GroupsLonger(groups: seq<seq<bytes>>)
    requires groups != []
    ensures var init, last := groups[..|groups| - 1], groups[|groups| - 1];
      && TextGroups(groups) == TextGroups(init) + [Texts(last)]
      && ContractEvents(groups) == ContractEvents(init) + [M.ContractEvent(last, [])]
  {
    hide Texts;
  }

  lemma DecodeGroupsLonger(groups: seq<seq<string>>, group: seq<string>)
    ensures DecodeGroups(groups + [group])
         == match (DecodeGroups(groups), DecodeAll(group))
            case (Some(init), Some(last)) => Some(init + [M.ContractEvent(last, [])])
            case _ => None
  {
    assert (groups + [group])[..|groups|] == groups;
  }

  lemma EventsRoundTrip(tx: LedgerTransaction)
    ensures DecodeEvents(TextEventsOf(tx)) == Some(EventsOf(tx))
  {
    if tx.diagnostic.Some? && tx.events.Some? {
      TextsRoundTrip(Kept(tx.diagnostic.value));
      TextsRoundTrip(Kept(tx.events.value.transaction));
      GroupsRoundTrip(Groups(tx.events.value.operations));
    }
  }

  /** The detour through text leaves a transaction as the ledger has it. */
  lemma TransactionRoundTrip(tx: LedgerTransaction, order: uint64, closeTime: int64)
    requires Marshals(tx)
    ensures Decoded(TextOf(tx).value, order, closeTime) == Some(TransactionOf(tx, order, closeTime))
  {
    HexRoundTrip(tx.hash);
    B64RoundTrip(tx.envelope.value);
    B64RoundTrip(tx.result.value);
    EventsRoundTrip(tx);
  }

  lemma {:induction false} TextsExist(txs: seq<LedgerTransaction>)
    ensures TextsOf(txs).Some? <==> forall i :: 0 <= i < |txs| ==> Marshals(txs[i])
  {
    if txs != [] {
      var init, last := txs[..|txs| - 1], txs[|txs| - 1];
      TextsExist(init);
      assert txs == init + [last];
    }
  }

  lemma {:induction false} TransactionsRoundTrip(txs: seq<LedgerTransaction>, closeTime: int64)
    requires |txs| < TWO_63 && forall i :: 0 <= i < |txs| ==> Marshals(txs[i])
    ensures TextsOf(txs).Some?
    ensures DecodedAll(TextsOf(txs).value, closeTime) == Some(TransactionsOf(txs, closeTime))
    decreases txs, 1
  {
    TextsExist(txs);
    if txs == [] {
      assert TransactionsOf(txs, closeTime) == [];
    } else {
      TransactionsRoundTripStep(txs, closeTime);
    }
  }

  lemma {:induction false} TransactionsRoundTripStep(txs: seq<LedgerTransaction>, closeTime: int64)
    requires 0 < |txs| < TWO_63 && TextsOf(txs).Some? && forall i :: 0 <= i < |txs| ==> Marshals(txs[i])
    ensures DecodedAll(TextsOf(txs).value, closeTime) == Some(TransactionsOf(txs, closeTime))
    decreases txs, 0
  {
    var init, last := txs[..|txs| - 1], txs[|txs| - 1];
    assert Marshals(last);
    TransactionsOfLonger(txs, closeTime);
    hide TextsOf, DecodedAll, Decoded, TextOf, TransactionOf, TransactionsOf, Marshals;
    TransactionsRoundTrip(init, closeTime);
    TextsOfLonger(txs);
    TransactionRoundTrip(last, |txs|, closeTime);
    DecodedAllLonger(TextsOf(init).value, TextOf(last).value, closeTime);
  }

  lemma TransactionsOfLonger(txs: seq<LedgerTransaction>, closeTime: int64)
    requires 0 < |txs| < TWO_63 && forall i :: 0 <= i < |txs| ==> Marshals(txs[i])
    ensures TransactionsOf(txs, closeTime)
         == TransactionsOf(txs[..|txs| - 1], closeTime) + [TransactionOf(txs[|txs| - 1], |txs|, closeTime)]
  {
    hide TransactionOf;
  }

  lemma TextsOfLonger(txs: seq<LedgerTransaction>)
    requires txs != [] && TextsOf(txs).Some?
    ensures TextsOf(txs[..|txs| - 1]).Some? && TextOf(txs[|txs| - 1]).Some?
    ensures TextsOf(txs).value == TextsOf(txs[..|txs| - 1]).value + [TextOf(txs[|txs| - 1]).value]
  {
  }

  lemma DecodedAllLonger(ts: seq<TextTransaction>, t: TextTransaction, closeTime: int64)
    requires |ts| + 1 < TWO_63
    ensures DecodedAll(ts + [t], closeTime)
         == match (DecodedAll(ts, closeTime), Decoded(t, |ts| + 1, closeTime))
            case (Some(init), Some(last)) => Some(init + [last])
            case _ => None
  {
    hide Decoded;
    assert (ts + [t])[..|ts|] == ts;
  }

  // ---- captive core ----

  /** Which version's entry captive core takes. */
  function CaptiveEntry(meta: CloseMeta): Option<LedgerEntry> {
    if meta.v0.Some? then meta.v0 else if meta.v1.Some? then meta.v1 else meta.v2
  }

  /** What the captive-core conversion makes of a ledger, in terms of the texts it goes through. */
  function CaptiveBlock(meta: CloseMeta): Option<BstreamBlock>
    requires |meta.transactions| < TWO_63
  {
    if CaptiveEntry(meta).None? || TextsOfMeta(meta).None? then None
    else
      var entry := CaptiveEntry(meta).value;
      var closeTime := ToInt64(entry.closeTime);
      match DecodedAll(TextsOfMeta(meta).value, closeTime)
      case None => None
      case Some(txs) => Wrapped(BlockOf(entry, entry.sequence, entry.hash, closeTime, txs))
  }

  method ConvertLedgerCloseMetaToBstreamBlock(meta: CloseMeta) returns (r: Option<BstreamBlock>)
    requires |meta.transactions| < TWO_63
    ensures r == CaptiveBlock(meta)
    ensures CaptiveEntry(meta).Some? ==> r == Direct(CaptiveEntry(meta).value, meta)
  {
    hide Wrapped, BlockOf, TextsOfMeta, DecodedAll, Direct;
    if CaptiveEntry(meta).Some? {
      CaptiveIsDirect(meta);
    }
    var entry: LedgerEntry;
    if meta.v0.Some? {
      entry := meta.v0.value;
    } else if meta.v1.Some? {
      entry := meta.v1.value;
    } else if meta.v2.Some? {
      entry := meta.v2.value;
    } else {
      return None;
    }
    assert CaptiveEntry(meta) == Some(entry);
    var closeTime := ToInt64(entry.closeTime);
    var transactions := ExtractTransactions(meta);
    if transactions.None? {
      return None;
    }
    var txs := DecodeAndNumber(transactions.value, closeTime);
    if txs.None? {
      return None;
    }
    r := Wrapped(BlockOf(entry, entry.sequence, entry.hash, closeTime, txs.value));
  }

  /** Captive core decodes and numbers the transactions in one loop. */
  method DecodeAndNumber(ts: seq<TextTransaction>, closeTime: int64) returns (r: Option<seq<M.Transaction>>)
    requires |ts| < TWO_63
    ensures r == DecodedAll(ts, closeTime)
  {
    hide Decoded;
    var txs: seq<M.Transaction> := [];
    for i := 0 to |ts|
      invariant DecodedAll(ts[..i], closeTime) == Some(txs)
    {
      assert ts[..i + 1][..i] == ts[..i];
      var tx := DecodeOne(ts[i], i + 1, closeTime);
      if tx.None? {
        DecodedAllOfPrefix(ts, i + 1, closeTime);
        return None;
      }
      txs := txs + [tx.value];
    }
    assert ts[..|ts|] == ts;
    return Some(txs);
  }

  /** The body of that loop. */
  method DecodeOne(t: TextTransaction, order: uint64, closeTime: int64) returns (r: Option<M.Transaction>)
    ensures r == Decoded(t, order, closeTime)
  {
    hide DecodeEvents;
    var hash := DecodeHex(t.txHash);
    if hash.None? {
      return None;
    }
    var envelope := DecodeB64(t.envelopeXdr);
    if envelope.None? {
      return None;
    }
    var result := DecodeB64(t.resultXdr);
    if result.None? {
      return None;
    }
    var events := DecodeTextEvents(t.events);
    if events.None? {
      return None;
    }
    return Some(M.Transaction(
      hash.value, ConvertTransactionStatus(t.status), Some(At(closeTime)), order,
      envelope.value, result.value, Some(events.value), []));
  }

  // ---- JSON-RPC ----

  /** A ledger as the RPC server describes it: hash as hex, close time as decimal text. */
  datatype RpcLedger = RpcLedger(hash: string, sequence: uint64, closeTime: string)

  /** Which version's entry the RPC fetcher takes: it looks for version 2 before version 1. */
  function RpcEntry(meta: CloseMeta): Option<LedgerEntry> {
    if meta.v0.Some? then meta.v0 else if meta.v2.Some? then meta.v2 else meta.v1
  }

  function RpcBlock(ledger: RpcLedger, meta: CloseMeta): Option<BstreamBlock>
    requires |meta.transactions| < TWO_63
  {
    if ParseInt64(ledger.closeTime).None? || RpcEntry(meta).None? || TextsOfMeta(meta).None? then None
    else
      var closeTime := ParseInt64(ledger.closeTime).value;
      match (DecodedAll(TextsOfMeta(meta).value, closeTime), DecodeHex(ledger.hash))
      case (Some(txs), Some(hash)) => Wrapped(BlockOf(RpcEntry(meta).value, ledger.sequence, hash, closeTime, txs))
      case _ => None
  }

  datatype TransactionMeta = TransactionMeta(
    hash: bytes, status: string, envelopeXdr: bytes, resultXdr: bytes, events: M.Events)

  function MetaOf(t: TextTransaction): Option<TransactionMeta> {
    match (DecodeHex(t.txHash), DecodeB64(t.envelopeXdr), DecodeB64(t.resultXdr), DecodeEvents(t.events))
    case (Some(hash), Some(envelope), Some(result), Some(events)) =>
      Some(TransactionMeta(hash, t.status, envelope, result, events))
    case _ => None
  }

  function Numbered(m: TransactionMeta, order: uint64, closeTime: int64): M.Transaction {
    M.Transaction(
      m.hash, ConvertTransactionStatus(m.status), Some(At(closeTime)), order,
      m.envelopeXdr, m.resultXdr, Some(m.events), [])
  }

  lemma DecodedInTwoSteps(t: TextTransaction, order: uint64, closeTime: int64)
    ensures Decoded(t, order, closeTime)
         == match MetaOf(t) case Some(m) => Some(Numbered(m, order, closeTime)) case None => None
  {
  }

  method DecodeMeta(t: TextTransaction) returns (r: Option<TransactionMeta>)
    ensures r == MetaOf(t)
  {
    hide DecodeEvents;
    var hash := DecodeHex(t.txHash);
    if hash.None? {
      return None;
    }
    var envelope := DecodeB64(t.envelopeXdr);
    if envelope.None? {
      return None;
    }
    var result := DecodeB64(t.resultXdr);
    if result.None? {
      return None;
    }
    var events := DecodeTextEvents(t.events);
    if events.None? {
      return None;
    }
    return Some(TransactionMeta(hash.value, t.status, envelope.value, result.value, events.value));
  }

  /** One transaction that does not decode fails the ledger. */
  lemma {:induction false} OneFailureFailsAll(ts: seq<TextTransaction>, i: nat, closeTime: int64)
    requires i < |ts| < TWO_63 && MetaOf(ts[i]).None?
    ensures DecodedAll(ts, closeTime).None?
    decreases |ts|
  {
    if i == |ts| - 1 {
      DecodedInTwoSteps(ts[i], |ts|, closeTime);
    } else {
      OneFailureFailsAll(ts[..|ts| - 1], i, closeTime);
    }
  }

  /** The RPC fetcher decodes all transactions first, then numbers them in a second loop. */
  method DecodeThenNumber(ts: seq<TextTransaction>, closeTime: int64) returns (r: Option<seq<M.Transaction>>)
    requires |ts| < TWO_63
    ensures r == DecodedAll(ts, closeTime)
  {
    hide MetaOf, Decoded, Numbered;
    var metas: seq<TransactionMeta> := [];
    for i := 0 to |ts|
      invariant |metas| == i && forall j :: 0 <= j < i ==> MetaOf(ts[j]) == Some(metas[j])
    {
      var m := DecodeMeta(ts[i]);
      if m.None? {
        OneFailureFailsAll(ts, i, closeTime);
        return None;
      }
      metas := metas + [m.value];
    }
    var txs: seq<M.Transaction> := [];
    for i := 0 to |metas|
      invariant DecodedAll(ts[..i], closeTime) == Some(txs)
    {
      assert ts[..i + 1][..i] == ts[..i];
      DecodedInTwoSteps(ts[i], i + 1, closeTime);
      txs := txs + [Numbered(metas[i], i + 1, closeTime)];
    }
    assert ts[..|ts|] == ts;
    return Some(txs);
  }

  /** The conversion in the RPC fetcher, once the ledger has been fetched and decoded. */
  method ConvertFetchedLedger(ledger: RpcLedger, meta: CloseMeta) returns (r: Option<BstreamBlock>)
    requires |meta.transactions| < TWO_63
    ensures r == RpcBlock(ledger, meta)
    ensures RpcEntry(meta).Some? && Consistent(ledger, RpcEntry(meta).value) ==> r == Direct(RpcEntry(meta).value, meta)
  {
    hide Wrapped, BlockOf, TextsOfMeta, DecodedAll, Direct, Consistent;
    if RpcEntry(meta).Some? && Consistent(ledger, RpcEntry(meta).value) {
      RpcIsDirect(ledger, meta);
    }
    var closeTime := ParseInt64(ledger.closeTime);
    if closeTime.None? {
      return None;
    }
    var entry: LedgerEntry;
    if meta.v0.Some? {
      entry := meta.v0.value;
    } else if meta.v2.Some? {
      entry := meta.v2.value;
    } else if meta.v1.Some? {
      entry := meta.v1.value;
    } else {
      return None;
    }
    assert RpcEntry(meta) == Some(entry);
    var transactions := ExtractTransactions(meta);
    if transactions.None? {
      return None;
    }
    var txs := DecodeThenNumber(transactions.value, closeTime.value);
    if txs.None? {
      return None;
    }
    var hash := DecodeHex(ledger.hash);
    if hash.None? {
      return None;
    }
    r := Wrapped(BlockOf(entry, ledger.sequence, hash.value, closeTime.value, txs.value));
  }

  // ---- the backends agree ----

  /** The server describes the ledger its metadata holds. */
  predicate Consistent(ledger: RpcLedger, entry: LedgerEntry) {
    && DecodeHex(ledger.hash) == Some(entry.hash)
    && ledger.sequence == entry.sequence
    && ParseInt64(ledger.closeTime) == Some(ToInt64(entry.closeTime))
  }

  /** The detour through text changes nothing: captive core builds the block directly described. */
  lemma CaptiveIsDirect(meta: CloseMeta)
    requires |meta.transactions| < TWO_63 && CaptiveEntry(meta).Some?
    ensures CaptiveBlock(meta) == Direct(CaptiveEntry(meta).value, meta)
  {
    TextsExist(meta.transactions);
    if TextsOfMeta(meta).Some? {
      TransactionsRoundTrip(meta.transactions, ToInt64(CaptiveEntry(meta).value.closeTime));
    }
    hide Wrapped, BlockOf, TransactionsOf, DecodedAll, TextsOf, Marshals;
  }

  lemma RpcIsDirect(ledger: RpcLedger, meta: CloseMeta)
    requires |meta.transactions| < TWO_63 && RpcEntry(meta).Some? && Consistent(ledger, RpcEntry(meta).value)
    ensures RpcBlock(ledger, meta) == Direct(RpcEntry(meta).value, meta)
  {
    TextsExist(meta.transactions);
    if TextsOfMeta(meta).Some? {
      TransactionsRoundTrip(meta.transactions, ToInt64(RpcEntry(meta).value.closeTime));
    }
    hide Wrapped, BlockOf, TransactionsOf, DecodedAll, TextsOf, Marshals, ParseInt64, DecodeHex;
  }

  /** For metadata with at most one version set, both fetchers yield the same block, or both fail. */
  lemma BackendsAgree(ledger: RpcLedger, meta: CloseMeta)
    requires |meta.transactions| < TWO_63
    requires meta.v0.Some? || meta.v1.None? || meta.v2.None?
    requires CaptiveEntry(meta).Some? ==> Consistent(ledger, CaptiveEntry(meta).value)
    ensures CaptiveEntry(meta) == RpcEntry(meta)
    ensures CaptiveBlock(meta) == RpcBlock(ledger, meta)
    ensures CaptiveEntry(meta).Some? ==> CaptiveBlock(meta) == Direct(CaptiveEntry(meta).value, meta)
  {
    if CaptiveEntry(meta).Some? {
      CaptiveIsDirect(meta);
      RpcIsDirect(ledger, meta);
    }
  }

  /** What a block takes from an entry besides number, hash, close time and transactions. */
  predicate SameHeader(a: LedgerEntry, b: LedgerEntry) {
    && a.version == b.version && a.previousHash == b.previousHash && a.totalCoins == b.totalCoins
    && a.baseFee == b.baseFee && a.baseReserve == b.baseReserve
  }

  /** The message a ledger becomes when header and hash are taken from the given entries. */
  function MessageOf(header: LedgerEntry, ledger: LedgerEntry, meta: CloseMeta): M.Block
    requires |meta.transactions| < TWO_63
    requires forall i :: 0 <= i < |meta.transactions| ==> Marshals(meta.transactions[i])
  {
    var closeTime := ToInt64(ledger.closeTime);
    BlockOf(header, ledger.sequence, ledger.hash, closeTime, TransactionsOf(meta.transactions, closeTime))
  }

  /** A block comes out only if every transaction marshals; then the texts decode to the ledger's transactions. */
  lemma TextsDecode(meta: CloseMeta, closeTime: int64)
    requires |meta.transactions| < TWO_63 && TextsOfMeta(meta).Some?
    ensures forall i :: 0 <= i < |meta.transactions| ==> Marshals(meta.transactions[i])
    ensures DecodedAll(TextsOfMeta(meta).value, closeTime) == Some(TransactionsOf(meta.transactions, closeTime))
  {
    hide TextsOf, DecodedAll, TransactionsOf, Marshals;
    TextsExist(meta.transactions);
    TransactionsRoundTrip(meta.transactions, closeTime);
  }

  /** Captive core wraps the message with the header of the entry it takes. */
  lemma CaptiveWraps(meta: CloseMeta)
    requires |meta.transactions| < TWO_63 && CaptiveBlock(meta).Some?
    ensures forall i :: 0 <= i < |meta.transactions| ==> Marshals(meta.transactions[i])
    ensures CaptiveBlock(meta) == Wrapped(MessageOf(CaptiveEntry(meta).value, CaptiveEntry(meta).value, meta))
  {
    hide Wrapped, BlockOf, TransactionsOf, DecodedAll, TextsOfMeta, Marshals, CaptiveEntry;
    TextsDecode(meta, ToInt64(CaptiveEntry(meta).value.closeTime));
  }

  /** Where the server describes some entry's ledger, the RPC fetcher wraps it with the header it takes. */
  lemma RpcWraps(ledger: RpcLedger, meta: CloseMeta, described: LedgerEntry)
    requires |meta.transactions| < TWO_63 && RpcEntry(meta).Some? && TextsOfMeta(meta).Some?
    requires Consistent(ledger, described)
    ensures forall i :: 0 <= i < |meta.transactions| ==> Marshals(meta.transactions[i])
    ensures RpcBlock(ledger, meta) == Wrapped(MessageOf(RpcEntry(meta).value, described, meta))
  {
    hide Wrapped, BlockOf, TransactionsOf, DecodedAll, TextsOfMeta, Marshals, RpcEntry, ParseInt64, DecodeHex;
    TextsDecode(meta, ToInt64(described.closeTime));
    BlockOfIgnoresTheRest(RpcEntry(meta).value, described, meta);
  }

  lemma BlockOfIgnoresTheRest(header: LedgerEntry, ledger: LedgerEntry, meta: CloseMeta)
    requires |meta.transactions| < TWO_63
    requires forall i :: 0 <= i < |meta.transactions| ==> Marshals(meta.transactions[i])
    ensures var closeTime := ToInt64(ledger.closeTime);
      MessageOf(header, ledger, meta)
      == BlockOf(header, ledger.sequence, ledger.hash, closeTime, TransactionsOf(meta.transactions, closeTime))
  {
    hide BlockOf, TransactionsOf, Marshals;
  }

  lemma MessageIsOk(header: LedgerEntry, ledger: LedgerEntry, meta: CloseMeta)
    requires |meta.transactions| < TWO_63
    requires forall i :: 0 <= i < |meta.transactions| ==> Marshals(meta.transactions[i])
    ensures RT.BlockOk(MessageOf(header, ledger, meta))
  {
    var closeTime := ToInt64(ledger.closeTime);
    var txs := TransactionsOf(meta.transactions, closeTime);
    hide TransactionsOf, RT.TransactionOk, TransactionOf, Marshals;
    forall t | t in txs ensures RT.TransactionOk(t) {
      var i :| 0 <= i < |txs| && txs[i] == t;
      ConvertedTransactionIsOk(meta.transactions[i], i + 1, closeTime);
    }
  }

  /** A wrapped message reads back from the payload, so wrapping tells messages apart. */
  lemma WrappedReadsBack(header: LedgerEntry, ledger: LedgerEntry, meta: CloseMeta)
    requires |meta.transactions| < TWO_63
    requires forall i :: 0 <= i < |meta.transactions| ==> Marshals(meta.transactions[i])
    requires Wrapped(MessageOf(header, ledger, meta)).Some?
    ensures Unpack(Wrapped(MessageOf(header, ledger, meta)).value.payload) == Some(MessageOf(header, ledger, meta))
  {
    hide Unpack, Pack, RT.BlockOk, EncodeHex, Marshals;
    MessageIsOk(header, ledger, meta);
    PackRoundTrip(MessageOf(header, ledger, meta));
  }

  /**
   The two fetchers look at versions 1 and 2 in opposite order. Where captive core yields a
   block and the server describes the entry it takes, the RPC fetcher yields the same block
   exactly when the entry it takes agrees with that one in the five header fields.
   */
  lemma BackendsAgreeExactly(ledger: RpcLedger, meta: CloseMeta)
    requires |meta.transactions| < TWO_63 && CaptiveBlock(meta).Some?
    requires Consistent(ledger, CaptiveEntry(meta).value)
    ensures RpcEntry(meta).Some?
    ensures CaptiveBlock(meta) == RpcBlock(ledger, meta) <==> SameHeader(CaptiveEntry(meta).value, RpcEntry(meta).value)
  {
    CaptiveReads(meta);
    hide CaptiveBlock, RpcBlock, CaptiveEntry, RpcEntry, TextsOfMeta;
    hide Consistent, Marshals, SameHeader, Wrapped, MessageOf;
    var entry, other := CaptiveEntry(meta).value, RpcEntry(meta).value;
    CaptiveWraps(meta);
    RpcWraps(ledger, meta, entry);
    WrappingTellsApart(entry, other, entry, meta);
  }

  lemma CaptiveReads(meta: CloseMeta)
    requires |meta.transactions| < TWO_63 && CaptiveBlock(meta).Some?
    ensures CaptiveEntry(meta).Some? && RpcEntry(meta).Some? && TextsOfMeta(meta).Some?
  {
    hide TextsOfMeta, DecodedAll, Wrapped, BlockOf;
  }

  lemma WrappingTellsApart(a: LedgerEntry, b: LedgerEntry, ledger: LedgerEntry, meta: CloseMeta)
    requires |meta.transactions| < TWO_63
    requires forall i :: 0 <= i < |meta.transactions| ==> Marshals(meta.transactions[i])
    requires Wrapped(MessageOf(a, ledger, meta)).Some?
    ensures Wrapped(MessageOf(a, ledger, meta)) == Wrapped(MessageOf(b, ledger, meta)) <==> SameHeader(a, b)
  {
    HeadersTellApart(a, b, ledger, meta);
    hide Marshals, SameHeader, Wrapped, MessageOf, Unpack;
    if Wrapped(MessageOf(a, ledger, meta)) == Wrapped(MessageOf(b, ledger, meta)) {
      WrappedReadsBack(a, ledger, meta);
      WrappedReadsBack(b, ledger, meta);
    }
  }

  lemma HeadersTellApart(a: LedgerEntry, b: LedgerEntry, ledger: LedgerEntry, meta: CloseMeta)
    requires |meta.transactions| < TWO_63
    requires forall i :: 0 <= i < |meta.transactions| ==> Marshals(meta.transactions[i])
    ensures MessageOf(a, ledger, meta) == MessageOf(b, ledger, meta) <==> SameHeader(a, b)
  {
    hide TransactionsOf, Marshals;
  }

  const ZERO_HASH: bytes := seq(32, _ => 0)
  const PLAIN_ENTRY := LedgerEntry(ZERO_HASH, 2, ZERO_HASH, 0, 0, 0, 0, 0)
  const TWO_ARMS := CloseMeta(None, Some(PLAIN_ENTRY), Some(PLAIN_ENTRY.(baseFee := 100)), [], false)
  const DESCRIBED := RpcLedger(EncodeHex(ZERO_HASH), 2, "0")

  /** Metadata built by hand with two versions set: both fetchers succeed and disagree on the base fee. */
  lemma TwoArmsDisagree()
    ensures CaptiveBlock(TWO_ARMS).Some? && Consistent(DESCRIBED, CaptiveEntry(TWO_ARMS).value)
    ensures CaptiveBlock(TWO_ARMS) != RpcBlock(DESCRIBED, TWO_ARMS)
  {
    HexRoundTrip(ZERO_HASH);
    hide EncodeHex, DecodeHex;
    BackendsAgreeExactly(DESCRIBED, TWO_ARMS);
  }

  /** A ledger's transactions carry no unknown bytes, so the block they make reads back from its payload. */
  lemma ConvertedBlockReadsBack(entry: LedgerEntry, meta: CloseMeta)
    requires |meta.transactions| < TWO_63 && Direct(entry, meta).Some?
    ensures forall i :: 0 <= i < |meta.transactions| ==> Marshals(meta.transactions[i])
    ensures var b := Direct(entry, meta).value;
      && Unpack(b.payload) == Some(MessageOf(entry, entry, meta))
      && PayloadHash(b) == Some(entry.hash) && PayloadPreviousHash(b) == Some(entry.previousHash)
      && b.id == EncodeHex(entry.hash) && b.parentId == EncodeHex(entry.previousHash)
  {
    hide Unpack, TransactionsOf, EncodeHex, Marshals, Pack;
    assert Direct(entry, meta) == Wrapped(MessageOf(entry, entry, meta));
    WrappedReadsBack(entry, entry, meta);
  }

  lemma ConvertedTransactionIsOk(tx: LedgerTransaction, order: uint64, closeTime: int64)
    requires Marshals(tx)
    ensures RT.TransactionOk(TransactionOf(tx, order, closeTime))
  {
    hide Kept, Groups;
  }
}
