/** The two in-place rewrites the comparison tool makes on a block before comparing it. */
module Sanitize {
  import opened Base
  import opened TextCodecs
  import opened Bstream
  import opened FixHashes
  import M = Messages
  import RT = RoundTrip

  /** A block whose ids are the hex of a message's hashes. */
  function WithIds(b: BstreamBlock, m: M.Block): BstreamBlock
    requires m.header.Some?
  {
    b.(id := EncodeHex(m.hash), parentId := EncodeHex(m.header.value.previousLedgerHash))
  }

  /**
   Recovers the hashes of a block and rewrites its ids and payload to match. The ids are
   rewritten before the payload, so they have changed when only packing fails.
   */
  method SanitizeBlockInPlace(blk: BlockCell) returns (ok: bool)
    modifies blk
    ensures ok <==> Sanitized(old(blk.Value())).Some?
    ensures ok ==> blk.Value() == Sanitized(old(blk.Value())).value
    ensures !ok && Recovered(old(blk.Value())).None? ==> blk.Value() == old(blk.Value())
    ensures !ok && Recovered(old(blk.Value())).Some? ==>
      blk.Value() == WithIds(old(blk.Value()), Recovered(old(blk.Value())).value)
  {
    hide Unpack, Pack, ConvertBrokenHash;
    var unpacked := Unpack(blk.payload);
    if unpacked.None? {
      return false;
    }
    var stellarBlk := unpacked.value;
    if stellarBlk.header.None? {
      return false;
    }
    var recoveredHash := ConvertBrokenHash(stellarBlk.hash);
    if recoveredHash.None? {
      return false;
    }
    var recoveredPrev := ConvertBrokenHash(stellarBlk.header.value.previousLedgerHash);
    if recoveredPrev.None? {
      return false;
    }
    stellarBlk := stellarBlk.(hash := recoveredHash.value);
    stellarBlk := stellarBlk.(header := Some(stellarBlk.header.value.(previousLedgerHash := recoveredPrev.value)));
    blk.id := EncodeHex(recoveredHash.value);
    blk.parentId := EncodeHex(recoveredPrev.value);
    var newPayload := Pack(stellarBlk);
    if newPayload.None? {
      return false;
    }
    blk.payload := newPayload.value;
    return true;
  }

  // ---- dropping wall-clock dependent diagnostic events ----

  /** The events `drop` lets through, in order. */
  function Keep(evs: seq<bytes>, drop: bytes -> bool): (r: seq<bytes>)
    ensures |r| <= |evs|
  {
    if evs == [] then []
    else
      Keep(evs[..|evs| - 1], drop) + if drop(evs[|evs| - 1]) then [] else [evs[|evs| - 1]]
  }

  /** `ys` is `xs` with events that `drop` rejects inserted here and there. */
  predicate InsertedInto(xs: seq<bytes>, ys: seq<bytes>, drop: bytes -> bool) {
    if ys == [] then xs == []
    else
      var y, init := ys[|ys| - 1], ys[..|ys| - 1];
      || (drop(y) && InsertedInto(xs, init, drop))
      || (xs != [] && xs[|xs| - 1] == y && InsertedInto(xs[..|xs| - 1], init, drop))
  }

  predicate NoneDropped(evs: seq<bytes>, drop: bytes -> bool) {
    forall i :: 0 <= i < |evs| ==> !drop(evs[i])
  }

  lemma {:induction false} KeepDropsAll(evs: seq<bytes>, drop: bytes -> bool)
    ensures NoneDropped(Keep(evs, drop), drop)
  {
    if evs != [] {
      KeepDropsAll(evs[..|evs| - 1], drop);
    }
  }

  lemma {:induction false} KeepAll(evs: seq<bytes>, drop: bytes -> bool)
    requires NoneDropped(evs, drop)
    ensures Keep(evs, drop) == evs
  {
    if evs != [] {
      KeepAll(evs[..|evs| - 1], drop);
    }
  }

  lemma {:induction false} KeepIgnoresInserted(xs: seq<bytes>, ys: seq<bytes>, drop: bytes -> bool)
    requires InsertedInto(xs, ys, drop)
    ensures Keep(xs, drop) == Keep(ys, drop)
    decreases |ys|
  {
    if ys != [] {
      var y, init := ys[|ys| - 1], ys[..|ys| - 1];
      if drop(y) && InsertedInto(xs, init, drop) {
        KeepIgnoresInserted(xs, init, drop);
      } else {
        KeepIgnoresInserted(xs[..|xs| - 1], init, drop);
      }
    }
  }

  lemma {:induction false} KeptIsInserted(evs: seq<bytes>, drop: bytes -> bool)
    ensures InsertedInto(Keep(evs, drop), evs, drop)
  {
    if evs != [] {
      var y, init := evs[|evs| - 1], evs[..|evs| - 1];
      KeptIsInserted(init, drop);
      if !drop(y) {
        var kept := Keep(evs, drop);
        assert kept == Keep(init, drop) + [y];
        assert kept[|kept| - 1] == y && kept[..|kept| - 1] == Keep(init, drop);
        assert InsertedInto(kept[..|kept| - 1], init, drop);
        assert InsertedInto(kept, evs, drop);
      } else {
        assert Keep(evs, drop) == Keep(init, drop);
      }
    }
  }

  /** The filter is the one list without droppable events that insertions of them turn into `evs`. */
  lemma KeepIsTheOnlyReduction(evs: seq<bytes>, kept: seq<bytes>, drop: bytes -> bool)
    ensures kept == Keep(evs, drop) <==> NoneDropped(kept, drop) && InsertedInto(kept, evs, drop)
  {
    KeepDropsAll(evs, drop);
    KeptIsInserted(evs, drop);
    if NoneDropped(kept, drop) && InsertedInto(kept, evs, drop) {
      KeepIgnoresInserted(kept, evs, drop);
      KeepAll(kept, drop);
    }
  }

  /**
   The loop over the events: it appends the ones it keeps to a slice that shares the array
   it reads from. What is written never overtakes what is still to be read.
   */
  method FilterInPlace(evs: array<bytes>, drop: bytes -> bool) returns (n: nat, dropped: bool)
    modifies evs
    ensures n <= evs.Length && evs[..n] == Keep(old(evs[..]), drop)
    ensures dropped <==> !NoneDropped(old(evs[..]), drop)
    ensures !dropped ==> evs[..] == old(evs[..])
  {
    n, dropped := 0, false;
    ghost var all := evs[..];
    for r := 0 to evs.Length
      invariant n <= r
      invariant evs[..n] == Keep(all[..r], drop)
      invariant forall k :: r <= k < evs.Length ==> evs[k] == all[k]
      invariant dropped <==> !NoneDropped(all[..r], drop)
      invariant !dropped ==> n == r && evs[..] == all
    {
      var raw := evs[r];
      assert raw == all[r];
      assert all[..r + 1][..r] == all[..r];
      if drop(raw) {
        assert all[..r + 1][r] == raw;
        dropped := true;
        continue;
      }
      evs[n] := raw;
      n := n + 1;
    }
    assert all[..evs.Length] == all;
  }

  function StripTransaction(t: M.Transaction, drop: bytes -> bool): M.Transaction {
    if t.events.None? then t
    else t.(events := Some(t.events.value.(diagnostic := Keep(t.events.value.diagnostic, drop))))
  }

  function StripTransactions(ts: seq<M.Transaction>, drop: bytes -> bool): (r: seq<M.Transaction>)
    ensures |r| == |ts| && forall i :: 0 <= i < |ts| ==> r[i] == StripTransaction(ts[i], drop)
  {
    seq(|ts|, i requires 0 <= i < |ts| => StripTransaction(ts[i], drop))
  }

  function StripMessage(m: M.Block, drop: bytes -> bool): M.Block {
    m.(transactions := StripTransactions(m.transactions, drop))
  }

  predicate CleanTransaction(t: M.Transaction, drop: bytes -> bool) {
    t.events.Some? ==> NoneDropped(t.events.value.diagnostic, drop)
  }

  predicate CleanMessage(m: M.Block, drop: bytes -> bool) {
    forall i :: 0 <= i < |m.transactions| ==> CleanTransaction(m.transactions[i], drop)
  }

  /** What the strip leaves of a block; a block with nothing to drop keeps its payload bytes. */
  function Stripped(b: BstreamBlock, drop: bytes -> bool): Option<BstreamBlock> {
    match Unpack(b.payload)
    case None => None
    case Some(m) =>
      if CleanMessage(m, drop) then Some(b)
      else
        match Pack(StripMessage(m, drop))
        case None => None
        case Some(payload) => Some(b.(payload := payload))
  }

  method StripNonDeterministicInPlace(blk: BlockCell, drop: bytes -> bool) returns (ok: bool)
    modifies blk
    ensures ok <==> Stripped(old(blk.Value()), drop).Some?
    ensures blk.Value() == if ok then Stripped(old(blk.Value()), drop).value else old(blk.Value())
  {
    hide Unpack, Pack, Keep;
    var unpacked := Unpack(blk.payload);
    if unpacked.None? {
      return false;
    }
    var stellarBlk := unpacked.value;
    var mutated := false;
    for i := 0 to |stellarBlk.transactions|
      invariant blk.Value() == old(blk.Value()) && |stellarBlk.transactions| == |unpacked.value.transactions|
      invariant stellarBlk == unpacked.value.(transactions := stellarBlk.transactions)
      invariant forall j :: 0 <= j < i ==>
        stellarBlk.transactions[j] == StripTransaction(unpacked.value.transactions[j], drop)
      invariant forall j :: i <= j < |stellarBlk.transactions| ==>
        stellarBlk.transactions[j] == unpacked.value.transactions[j]
      invariant mutated <==> exists j :: 0 <= j < i && !CleanTransaction(unpacked.value.transactions[j], drop)
    {
      var tx := stellarBlk.transactions[i];
      if tx.events.None? || |tx.events.value.diagnostic| == 0 {
        NothingToStrip(tx, drop);
        continue;
      }
      var evs := tx.events.value.diagnostic;
      var shared := new bytes[|evs|](k requires 0 <= k < |evs| => evs[k]);
      assert shared[..] == evs;
      var n, dropped := FilterInPlace(shared, drop);
      mutated := mutated || dropped;
      tx := tx.(events := Some(tx.events.value.(diagnostic := shared[..n])));
      stellarBlk := stellarBlk.(transactions := stellarBlk.transactions[i := tx]);
    }
    if !mutated {
      return true;
    }
    assert stellarBlk.transactions == StripTransactions(unpacked.value.transactions, drop);
    var newPayload := Pack(stellarBlk);
    if newPayload.None? {
      return false;
    }
    blk.payload := newPayload.value;
    return true;
  }

  lemma NothingToStrip(t: M.Transaction, drop: bytes -> bool)
    requires CleanTransaction(t, drop)
    ensures StripTransaction(t, drop) == t
  {
    if t.events.Some? {
      KeepAll(t.events.value.diagnostic, drop);
    }
  }

  lemma StripIdempotent(m: M.Block, drop: bytes -> bool)
    ensures CleanMessage(StripMessage(m, drop), drop)
    ensures CleanMessage(m, drop) ==> StripMessage(m, drop) == m
  {
    forall i | 0 <= i < |m.transactions|
      ensures CleanTransaction(StripTransaction(m.transactions[i], drop), drop)
    {
      if m.transactions[i].events.Some? {
        KeepDropsAll(m.transactions[i].events.value.diagnostic, drop);
      }
    }
    if CleanMessage(m, drop) {
      forall i | 0 <= i < |m.transactions| ensures StripTransaction(m.transactions[i], drop) == m.transactions[i] {
        NothingToStrip(m.transactions[i], drop);
      }
      assert StripTransactions(m.transactions, drop) == m.transactions;
    }
  }

  lemma StrippedMessageIsOk(m: M.Block, drop: bytes -> bool)
    requires RT.BlockOk(m)
    ensures RT.BlockOk(StripMessage(m, drop))
  {
    hide Keep;
    var r := StripMessage(m, drop);
    forall t | t in r.transactions ensures RT.TransactionOk(t) {
      var i :| 0 <= i < |r.transactions| && r.transactions[i] == t;
      assert m.transactions[i] in m.transactions;
      assert RT.TransactionOk(m.transactions[i]);
    }
  }

  /** The payload of a stripped block reads back as the filtered message. */
  lemma StrippedReadsBack(b: BstreamBlock, drop: bytes -> bool)
    requires Stripped(b, drop).Some?
    ensures Unpack(b.payload).Some?
    ensures Unpack(Stripped(b, drop).value.payload) == Some(StripMessage(Unpack(b.payload).value, drop))
  {
    hide Pack, Unpack;
    var m := Unpack(b.payload).value;
    StripIdempotent(m, drop);
    if !CleanMessage(m, drop) {
      UnpackedIsOk(b.payload);
      StrippedMessageIsOk(m, drop);
      PackRoundTrip(StripMessage(m, drop));
    }
  }

  /** Stripping twice is stripping once. */
  lemma StrippingIsIdempotent(b: BstreamBlock, drop: bytes -> bool)
    requires Stripped(b, drop).Some?
    ensures Stripped(Stripped(b, drop).value, drop) == Stripped(b, drop)
  {
    hide Pack, Unpack;
    StrippedReadsBack(b, drop);
    StripIdempotent(Unpack(b.payload).value, drop);
  }

  /** The messages agree once the droppable diagnostic events are taken out of both. */
  ghost predicate SameButDropped(a: M.Block, b: M.Block, drop: bytes -> bool) {
    && a == b.(transactions := a.transactions)
    && |a.transactions| == |b.transactions|
    && forall i :: 0 <= i < |a.transactions| ==> SameTransactionButDropped(a.transactions[i], b.transactions[i], drop)
  }

  ghost predicate SameTransactionButDropped(s: M.Transaction, t: M.Transaction, drop: bytes -> bool) {
    && s == t.(events := s.events)
    && (s.events.Some? <==> t.events.Some?)
    && (s.events.Some? ==>
          && s.events.value == t.events.value.(diagnostic := s.events.value.diagnostic)
          && (exists common :: InsertedInto(common, s.events.value.diagnostic, drop)
                             && InsertedInto(common, t.events.value.diagnostic, drop)))
  }

  /**
   After stripping, two blocks carry the same message exactly when they differed by inserted
   droppable events only; a difference anywhere else survives.
   */
  lemma StrippedMessagesAgreeExactly(a: M.Block, b: M.Block, drop: bytes -> bool)
    ensures StripMessage(a, drop) == StripMessage(b, drop) <==> SameButDropped(a, b, drop)
  {
    hide Keep, InsertedInto;
    var x, y := StripMessage(a, drop), StripMessage(b, drop);
    if |a.transactions| == |b.transactions| {
      forall i | 0 <= i < |a.transactions|
        ensures x.transactions[i] == y.transactions[i]
           <==> SameTransactionButDropped(a.transactions[i], b.transactions[i], drop)
      {
        StrippedTransactionsAgreeExactly(a.transactions[i], b.transactions[i], drop);
      }
      assert x.transactions == y.transactions <==>
        forall i :: 0 <= i < |a.transactions| ==> x.transactions[i] == y.transactions[i];
    }
    assert x == y <==> a == b.(transactions := a.transactions) && x.transactions == y.transactions;
  }

  lemma StrippedTransactionsAgreeExactly(s: M.Transaction, t: M.Transaction, drop: bytes -> bool)
    ensures StripTransaction(s, drop) == StripTransaction(t, drop) <==> SameTransactionButDropped(s, t, drop)
  {
    if s.events.Some? && t.events.Some? {
      var xs, ys := s.events.value.diagnostic, t.events.value.diagnostic;
      KeptIsInserted(xs, drop);
      KeptIsInserted(ys, drop);
      forall common | InsertedInto(common, xs, drop) && InsertedInto(common, ys, drop)
        ensures Keep(xs, drop) == Keep(ys, drop)
      {
        KeepIgnoresInserted(common, xs, drop);
        KeepIgnoresInserted(common, ys, drop);
      }
      assert Keep(xs, drop) == Keep(ys, drop) ==>
        InsertedInto(Keep(xs, drop), xs, drop) && InsertedInto(Keep(xs, drop), ys, drop);
    }
  }

  /** The strip gives the one message without droppable events that differs by such events only. */
  lemma StripIsTheCleanOne(m: M.Block, x: M.Block, drop: bytes -> bool)
    ensures x == StripMessage(m, drop) <==> CleanMessage(x, drop) && SameButDropped(x, m, drop)
  {
    StripIdempotent(m, drop);
    StripIdempotent(x, drop);
    StripIdempotent(StripMessage(m, drop), drop);
    StrippedMessagesAgreeExactly(x, m, drop);
    StrippedMessagesAgreeExactly(StripMessage(m, drop), m, drop);
    hide StripMessage, CleanMessage, SameButDropped;
  }

  /**
   Two blocks whose payloads differ by inserted droppable events carry equal messages once
   stripped, and equal payload bytes when both had something to drop.
   */
  lemma StrippedPayloadsAgree(a: BstreamBlock, b: BstreamBlock, drop: bytes -> bool)
    requires Stripped(a, drop).Some? && Stripped(b, drop).Some?
    requires SameButDropped(Unpack(a.payload).value, Unpack(b.payload).value, drop)
    ensures Unpack(Stripped(a, drop).value.payload) == Unpack(Stripped(b, drop).value.payload)
    ensures !CleanMessage(Unpack(a.payload).value, drop) && !CleanMessage(Unpack(b.payload).value, drop) ==>
      Stripped(a, drop).value.payload == Stripped(b, drop).value.payload
  {
    hide Pack, Unpack;
    StrippedReadsBack(a, drop);
    StrippedReadsBack(b, drop);
    StrippedMessagesAgreeExactly(Unpack(a.payload).value, Unpack(b.payload).value, drop);
  }
}
