/**
 What the block of a ledger says, field by field and event by event, on the ledger itself:
 which events it carries and in which order, how transactions are numbered, and how the
 blocks of consecutive ledgers are linked.
 */
module LedgerMessage {
  import opened Base
  import opened TextCodecs
  import opened Bstream
  import opened Ledger
  import M = Messages

  predicate Increasing(at: seq<nat>) {
    forall i, j :: 0 <= i < j < |at| ==> at[i] < at[j]
  }

  /** `at` are, in ascending order, exactly the positions of events that marshal, and `out` what they marshal to. */
  predicate ListedAt(out: seq<bytes>, ms: seq<Marshalled>, at: seq<nat>) {
    && |at| == |out| && Increasing(at)
    && (forall i :: 0 <= i < |at| ==> at[i] < |ms| && ms[at[i]] == Some(out[i]))
    && (forall k :: 0 <= k < |ms| && ms[k].Some? ==> k in at)
  }

  ghost predicate Listed(out: seq<bytes>, ms: seq<Marshalled>) {
    exists at :: ListedAt(out, ms, at)
  }

  ghost predicate Group(c: M.ContractEvent, op: Option<seq<Marshalled>>) {
    op.Some? && Listed(c.events, op.value) && c.unknown == []
  }

  /** The same for groups of events: exactly those that are not nil, an empty one included. */
  ghost predicate GroupedAt(out: seq<M.ContractEvent>, ops: seq<Option<seq<Marshalled>>>, at: seq<nat>) {
    && |at| == |out| && Increasing(at)
    && (forall i :: 0 <= i < |at| ==> at[i] < |ops| && Group(out[i], ops[at[i]]))
    && (forall k :: 0 <= k < |ops| && ops[k].Some? ==> k in at)
  }

  ghost predicate Grouped(out: seq<M.ContractEvent>, ops: seq<Option<seq<Marshalled>>>) {
    exists at :: GroupedAt(out, ops, at)
  }

  /** The events of a transaction; where any of them cannot be read there are none. */
  ghost predicate SaysEvents(e: M.Events, tx: LedgerTransaction) {
    && e.unknown == []
    && if tx.diagnostic.Some? && tx.events.Some? then
         && Listed(e.diagnostic, tx.diagnostic.value)
         && Listed(e.transaction, tx.events.value.transaction)
         && Grouped(e.contract, tx.events.value.operations)
       else e.diagnostic == [] && e.transaction == [] && e.contract == []
  }

  predicate SaysTime(t: Option<M.Timestamp>, seconds: int64) {
    t.Some? && t.value.seconds == seconds && t.value.nanos == 0 && t.value.unknown == []
  }

  ghost predicate SaysTransaction(t: M.Transaction, tx: LedgerTransaction, order: nat, closeTime: int64) {
    && t.hash == tx.hash
    && t.status == (if tx.successful then 1 else 2)
    && SaysTime(t.createdAt, closeTime)
    && t.applicationOrder == order
    && Some(t.envelopeXdr) == tx.envelope && Some(t.resultXdr) == tx.result
    && t.events.Some? && SaysEvents(t.events.value, tx)
    && t.unknown == []
  }

  predicate SaysHeader(h: Option<M.Header>, entry: LedgerEntry) {
    && h.Some?
    && h.value.ledgerVersion == entry.version && h.value.previousLedgerHash == entry.previousHash
    && h.value.totalCoins == entry.totalCoins
    && h.value.baseFee == entry.baseFee && h.value.baseReserve == entry.baseReserve
    && h.value.unknown == []
  }

  /** The message of a ledger: its transactions in ledger order, numbered from one, under this header. */
  ghost predicate Says(m: M.Block, header: LedgerEntry, entry: LedgerEntry, meta: CloseMeta) {
    var closeTime := ToInt64(entry.closeTime);
    && m.number == entry.sequence && m.hash == entry.hash && m.version == 1
    && SaysHeader(m.header, header)
    && SaysTime(m.createdAt, closeTime)
    && |m.transactions| == |meta.transactions|
    && (forall i :: 0 <= i < |m.transactions| ==>
          SaysTransaction(m.transactions[i], meta.transactions[i], i + 1, closeTime))
    && m.unknown == []
  }

  /** The block around it: ids in hex, the close time, and the ledger before as parent and last final block. */
  ghost predicate BlockSays(b: BstreamBlock, header: LedgerEntry, entry: LedgerEntry, meta: CloseMeta) {
    && Unpack(b.payload).Some? && Says(Unpack(b.payload).value, header, entry, meta)
    && b.number == entry.sequence
    && b.id == EncodeHex(entry.hash) && b.parentId == EncodeHex(header.previousHash)
    && SaysTime(b.timestamp, ToInt64(entry.closeTime))
    && (entry.sequence > 0 ==> b.parentNum == entry.sequence - 1 && b.libNum == entry.sequence - 1)
  }

  // ---- the direct construction says it ----

  lemma {:induction false} KeptIsListed(ms: seq<Marshalled>) returns (at: seq<nat>)
    ensures ListedAt(Kept(ms), ms, at)
  {
    if ms == [] {
      at := [];
    } else {
      var init, last := ms[..|ms| - 1], ms[|ms| - 1];
      var before := KeptIsListed(init);
      assert ms == init + [last];
      KeptLonger(init, last);
      hide ListedAt, Kept;
      OneMoreListed(Kept(init), init, before, last);
      at := if last.Some? then before + [|init|] else before;
    }
  }

  lemma KeptLonger(ms: seq<Marshalled>, last: Marshalled)
    ensures last.None? ==> Kept(ms + [last]) == Kept(ms)
    ensures last.Some? ==> Kept(ms + [last]) == Kept(ms) + [last.value]
  {
    assert (ms + [last])[..|ms|] == ms;
  }

  lemma OneMoreListed(out: seq<bytes>, ms: seq<Marshalled>, at: seq<nat>, last: Marshalled)
    requires ListedAt(out, ms, at)
    ensures last.None? ==> ListedAt(out, ms + [last], at)
    ensures last.Some? ==> ListedAt(out + [last.value], ms + [last], at + [|ms|])
  {
    forall k | 0 <= k < |ms + [last]| && (ms + [last])[k].Some? ensures k in at || k == |ms| {
      assert k < |ms| ==> ms[k].Some?;
    }
    if last.Some? {
      assert (at + [|ms|])[|at|] == |ms|;
    }
  }

  lemma {:induction false} GroupsAreListed(ops: seq<Option<seq<Marshalled>>>) returns (at: seq<nat>)
    ensures GroupedAt(ContractEvents(Groups(ops)), ops, at)
  {
    if ops == [] {
      at := [];
    } else {
      var init, last := ops[..|ops| - 1], ops[|ops| - 1];
      var before := GroupsAreListed(init);
      assert ops == init + [last];
      GroupsLongerBy(init, last);
      hide GroupedAt, Groups, ContractEvents, Group;
      if last.Some? {
        GroupIsListed(last.value);
        OneMoreGroup(ContractEvents(Groups(init)), init, before, last, M.ContractEvent(Kept(last.value), []));
      } else {
        NoMoreGroup(ContractEvents(Groups(init)), init, before);
      }
      at := if last.Some? then before + [|init|] else before;
    }
  }

  lemma GroupIsListed(ms: seq<Marshalled>)
    ensures Group(M.ContractEvent(Kept(ms), []), Some(ms))
  {
    var inner := KeptIsListed(ms);
    hide ListedAt, Kept;
  }

  lemma GroupsLongerBy(ops: seq<Option<seq<Marshalled>>>, last: Option<seq<Marshalled>>)
    ensures last.None? ==> Groups(ops + [last]) == Groups(ops)
    ensures last.Some? ==>
      ContractEvents(Groups(ops + [last])) == ContractEvents(Groups(ops)) + [M.ContractEvent(Kept(last.value), [])]
  {
    hide Kept;
    assert (ops + [last])[..|ops|] == ops;
  }

  lemma NoMoreGroup(out: seq<M.ContractEvent>, ops: seq<Option<seq<Marshalled>>>, at: seq<nat>)
    requires GroupedAt(out, ops, at)
    ensures GroupedAt(out, ops + [None], at)
  {
    hide Group;
    forall k | 0 <= k < |ops + [None]| && (ops + [None])[k].Some? ensures k in at {
      assert k < |ops| && ops[k].Some?;
    }
  }

  lemma OneMoreGroup(out: seq<M.ContractEvent>, ops: seq<Option<seq<Marshalled>>>, at: seq<nat>,
      last: Option<seq<Marshalled>>, group: M.ContractEvent)
    requires GroupedAt(out, ops, at) && last.Some? && Group(group, last)
    ensures GroupedAt(out + [group], ops + [last], at + [|ops|])
  {
    hide Group;
    forall k | 0 <= k < |ops + [last]| && (ops + [last])[k].Some? ensures k in at + [|ops|] {
      if k < |ops| {
        assert ops[k].Some?;
      } else {
        assert (at + [|ops|])[|at|] == k;
      }
    }
  }

  lemma EventsSayIt(tx: LedgerTransaction)
    ensures SaysEvents(EventsOf(tx), tx)
  {
    hide ListedAt, GroupedAt, Kept, Groups;
    if tx.diagnostic.Some? && tx.events.Some? {
      var d := KeptIsListed(tx.diagnostic.value);
      var t := KeptIsListed(tx.events.value.transaction);
      var g := GroupsAreListed(tx.events.value.operations);
    }
  }

  lemma MessageSaysIt(header: LedgerEntry, entry: LedgerEntry, meta: CloseMeta)
    requires |meta.transactions| < TWO_63
    requires forall i :: 0 <= i < |meta.transactions| ==> Marshals(meta.transactions[i])
    ensures Says(MessageOf(header, entry, meta), header, entry, meta)
  {
    var m, closeTime := MessageOf(header, entry, meta), ToInt64(entry.closeTime);
    hide EventsOf, SaysEvents;
    forall i | 0 <= i < |m.transactions|
      ensures SaysTransaction(m.transactions[i], meta.transactions[i], i + 1, closeTime)
    {
      EventsSayIt(meta.transactions[i]);
    }
    hide SaysTransaction, TransactionsOf;
  }

  lemma DirectWraps(entry: LedgerEntry, meta: CloseMeta)
    requires |meta.transactions| < TWO_63 && Direct(entry, meta).Some?
    ensures !meta.readFails && forall i :: 0 <= i < |meta.transactions| ==> Marshals(meta.transactions[i])
    ensures Direct(entry, meta) == Wrapped(MessageOf(entry, entry, meta))
  {
    hide Wrapped, TransactionsOf, BlockOf, Marshals;
  }

  lemma WrappedFields(m: M.Block)
    requires m.header.Some? && Wrapped(m).Some?
    ensures var b := Wrapped(m).value;
      && b.number == m.number && b.timestamp == m.createdAt
      && b.id == EncodeHex(m.hash) && b.parentId == EncodeHex(m.header.value.previousLedgerHash)
      && (m.number > 0 ==> b.parentNum == m.number - 1 && b.libNum == m.number - 1)
  {
    hide Pack, EncodeHex;
  }

  lemma MessageFields(header: LedgerEntry, entry: LedgerEntry, meta: CloseMeta)
    requires |meta.transactions| < TWO_63
    requires forall i :: 0 <= i < |meta.transactions| ==> Marshals(meta.transactions[i])
    ensures var m := MessageOf(header, entry, meta);
      && m.number == entry.sequence && m.hash == entry.hash && SaysTime(m.createdAt, ToInt64(entry.closeTime))
      && m.header.Some? && m.header.value.previousLedgerHash == header.previousHash
  {
    hide TransactionsOf, Marshals;
  }

  lemma WrappedSays(header: LedgerEntry, entry: LedgerEntry, meta: CloseMeta)
    requires |meta.transactions| < TWO_63
    requires forall i :: 0 <= i < |meta.transactions| ==> Marshals(meta.transactions[i])
    requires Wrapped(MessageOf(header, entry, meta)).Some?
    ensures BlockSays(Wrapped(MessageOf(header, entry, meta)).value, header, entry, meta)
  {
    hide Wrapped, MessageOf, Unpack, EncodeHex, Marshals, Says, SaysTime;
    MessageSaysIt(header, entry, meta);
    MessageFields(header, entry, meta);
    WrappedReadsBack(header, entry, meta);
    WrappedFields(MessageOf(header, entry, meta));
  }

  /**
   The block a ledger becomes: its payload says what the ledger holds, its ids are the hex of
   ledger hash and previous hash, and the ledger before it is its parent and last final block.
   It exists unless reading fails, a transaction does not marshal, or it is too large.
   */
  lemma LedgerBlock(entry: LedgerEntry, meta: CloseMeta)
    requires |meta.transactions| < TWO_63
    ensures Direct(entry, meta).Some? ==>
      && !meta.readFails
      && (forall i :: 0 <= i < |meta.transactions| ==> Marshals(meta.transactions[i]))
      && BlockSays(Direct(entry, meta).value, entry, entry, meta)
    ensures Direct(entry, meta).None? ==>
      || meta.readFails
      || (exists i :: 0 <= i < |meta.transactions| && !Marshals(meta.transactions[i]))
      || |M.EncodeBlock(MessageOf(entry, entry, meta))| >= TWO_63
  {
    if Direct(entry, meta).Some? {
      DirectWraps(entry, meta);
      WrappedSays(entry, entry, meta);
    }
    hide BlockSays, TransactionsOf, M.EncodeBlock, EncodeHex, Marshals;
  }

  /** Metadata as XDR gives it: the entry of the one version it holds. */
  predicate OneVersion(meta: CloseMeta, entry: LedgerEntry) {
    || (meta.v0 == Some(entry) && meta.v1.None? && meta.v2.None?)
    || (meta.v0.None? && meta.v1 == Some(entry) && meta.v2.None?)
    || (meta.v0.None? && meta.v1.None? && meta.v2 == Some(entry))
  }

  /**
   What either fetcher yields for a ledger says what the ledger holds. Number, hash and close
   time of the RPC fetcher's block are the server's, even where its metadata has others.
   */
  lemma FetchersSayTheLedger(ledger: RpcLedger, meta: CloseMeta, entry: LedgerEntry, described: LedgerEntry)
    requires |meta.transactions| < TWO_63 && OneVersion(meta, entry) && Consistent(ledger, described)
    ensures CaptiveBlock(meta).Some? ==> BlockSays(CaptiveBlock(meta).value, entry, entry, meta)
    ensures RpcBlock(ledger, meta).Some? ==> BlockSays(RpcBlock(ledger, meta).value, entry, described, meta)
    ensures CaptiveBlock(meta).None? ==>
      || meta.readFails
      || (exists i :: 0 <= i < |meta.transactions| && !Marshals(meta.transactions[i]))
      || |M.EncodeBlock(MessageOf(entry, entry, meta))| >= TWO_63
    ensures described == entry ==> (RpcBlock(ledger, meta).Some? <==> CaptiveBlock(meta).Some?)
  {
    assert CaptiveEntry(meta) == RpcEntry(meta) == Some(entry);
    RpcReads(ledger, meta);
    hide CaptiveBlock, RpcBlock, Direct, BlockSays, Consistent, CaptiveEntry, RpcEntry, M.EncodeBlock, Wrapped;
    hide Marshals, MessageOf, TextsOfMeta;
    CaptiveIsDirect(meta);
    LedgerBlock(entry, meta);
    if described == entry {
      RpcIsDirect(ledger, meta);
    }
    if RpcBlock(ledger, meta).Some? {
      RpcWraps(ledger, meta, described);
      WrappedSays(entry, described, meta);
    }
  }

  lemma RpcReads(ledger: RpcLedger, meta: CloseMeta)
    requires |meta.transactions| < TWO_63
    ensures RpcBlock(ledger, meta).Some? ==> TextsOfMeta(meta).Some?
  {
    hide TextsOfMeta, DecodedAll, Wrapped, BlockOf, DecodeHex;
  }

  // ---- nothing else says it ----

  ghost function Members(a: seq<nat>): set<nat> { set k | k in a }

  lemma SomeMember(a: seq<nat>)
    ensures Members(a) == {} <==> a == []
  {
    if a != [] {
      assert a[0] in Members(a);
    }
  }

  lemma {:induction false} OneEnumeration(a: seq<nat>, b: seq<nat>)
    requires Increasing(a) && Increasing(b) && Members(a) == Members(b)
    ensures a == b
    decreases |a|
  {
    if a != [] && b != [] {
      var x, y := a[|a| - 1], b[|b| - 1];
      assert x in Members(a) && y in Members(b);
      assert x in b && y in a;
      assert x == y;
      WithoutLast(a);
      WithoutLast(b);
      OneEnumeration(a[..|a| - 1], b[..|b| - 1]);
      assert a == a[..|a| - 1] + [x] && b == b[..|b| - 1] + [y];
    } else {
      SomeMember(a);
      SomeMember(b);
    }
  }

  lemma WithoutLast(a: seq<nat>)
    requires a != [] && Increasing(a)
    ensures Members(a[..|a| - 1]) == Members(a) - {a[|a| - 1]}
  {
    forall k | k in Members(a) && k != a[|a| - 1] ensures k in a[..|a| - 1] {
      var i :| 0 <= i < |a| && a[i] == k;
      assert a[..|a| - 1][i] == k;
    }
  }

  ghost function Marshalling(ms: seq<Marshalled>): set<nat> { set k: nat | k < |ms| && ms[k].Some? }

  ghost function Present(ops: seq<Option<seq<Marshalled>>>): set<nat> { set k: nat | k < |ops| && ops[k].Some? }

  lemma ListedPositions(out: seq<bytes>, ms: seq<Marshalled>, at: seq<nat>)
    requires ListedAt(out, ms, at)
    ensures Members(at) == Marshalling(ms)
  {
    forall k | k in Members(at) ensures k in Marshalling(ms) {
      var i :| 0 <= i < |at| && at[i] == k;
    }
  }

  lemma ListedOnce(a: seq<bytes>, b: seq<bytes>, ms: seq<Marshalled>)
    requires Listed(a, ms) && Listed(b, ms)
    ensures a == b
  {
    var at :| ListedAt(a, ms, at);
    var bt :| ListedAt(b, ms, bt);
    ListedPositions(a, ms, at);
    ListedPositions(b, ms, bt);
    hide Members, Marshalling;
    OneEnumeration(at, bt);
    forall i | 0 <= i < |a| ensures a[i] == b[i] {
      assert Some(a[i]) == ms[at[i]] == Some(b[i]);
    }
  }

  lemma GroupedPositions(out: seq<M.ContractEvent>, ops: seq<Option<seq<Marshalled>>>, at: seq<nat>)
    requires GroupedAt(out, ops, at)
    ensures Members(at) == Present(ops)
  {
    hide Listed;
    forall k | k in Members(at) ensures k in Present(ops) {
      var i :| 0 <= i < |at| && at[i] == k;
      assert Group(out[i], ops[at[i]]);
    }
  }

  lemma GroupedOnce(a: seq<M.ContractEvent>, b: seq<M.ContractEvent>, ops: seq<Option<seq<Marshalled>>>)
    requires Grouped(a, ops) && Grouped(b, ops)
    ensures a == b
  {
    var at :| GroupedAt(a, ops, at);
    var bt :| GroupedAt(b, ops, bt);
    GroupedPositions(a, ops, at);
    GroupedPositions(b, ops, bt);
    hide Members, Present, Listed;
    OneEnumeration(at, bt);
    forall i | 0 <= i < |a| ensures a[i] == b[i] {
      assert Group(a[i], ops[at[i]]) && Group(b[i], ops[bt[i]]);
      ListedOnce(a[i].events, b[i].events, ops[at[i]].value);
    }
  }

  lemma TransactionSaidOnce(a: M.Transaction, b: M.Transaction, tx: LedgerTransaction, order: nat, closeTime: int64)
    requires SaysTransaction(a, tx, order, closeTime) && SaysTransaction(b, tx, order, closeTime)
    ensures a == b
  {
    hide Listed, Grouped;
    if tx.diagnostic.Some? && tx.events.Some? {
      ListedOnce(a.events.value.diagnostic, b.events.value.diagnostic, tx.diagnostic.value);
      ListedOnce(a.events.value.transaction, b.events.value.transaction, tx.events.value.transaction);
      GroupedOnce(a.events.value.contract, b.events.value.contract, tx.events.value.operations);
    }
  }

  /** A ledger is said by one message only, so this fixes what the fetchers yield. */
  lemma SaidOnce(a: M.Block, b: M.Block, header: LedgerEntry, entry: LedgerEntry, meta: CloseMeta)
    requires Says(a, header, entry, meta) && Says(b, header, entry, meta)
    ensures a == b
  {
    hide SaysTransaction;
    forall i | 0 <= i < |meta.transactions| ensures a.transactions[i] == b.transactions[i] {
      TransactionSaidOnce(a.transactions[i], b.transactions[i], meta.transactions[i], i + 1, ToInt64(entry.closeTime));
    }
  }

  // ---- consecutive ledgers ----

  /** The blocks of two ledgers are linked by number and id exactly when the ledgers are by sequence and hash. */
  lemma ConsecutiveLedgersLink(parent: BstreamBlock, child: BstreamBlock, e: LedgerEntry, f: LedgerEntry,
      meta: CloseMeta, next: CloseMeta)
    requires BlockSays(parent, e, e, meta) && BlockSays(child, f, f, next) && f.sequence > 0
    ensures child.parentNum == parent.number <==> f.sequence == e.sequence + 1
    ensures child.libNum == parent.number <==> f.sequence == e.sequence + 1
    ensures child.parentId == parent.id <==> f.previousHash == e.hash
    ensures PayloadPreviousHash(child) == PayloadHash(parent) <==> f.previousHash == e.hash
  {
    hide EncodeHex, SaysTransaction, Unpack;
    HexIsInjective(f.previousHash, e.hash);
  }
}
