/**
 What the comparison of two stores decides, said on the blocks as they are stored: whatever
 is sanitized and stripped on the way, two blocks count as equal exactly when numbers,
 recovered ids and recovered messages agree up to droppable events.
 */
module ComparePrepared {
  import opened Base
  import opened TextCodecs
  import opened Bstream
  import opened FixHashes
  import opened Sanitize
  import opened CompareBlocks
  import opened CompareStores
  import opened CompareOneblock
  import M = Messages

  /** What of a stored block is compared: its ids and message, recovered where the side is sanitized. */
  datatype Reading = Reading(number: uint64, id: string, parentId: string, message: M.Block)

  function ReadAs(b: BstreamBlock, sanitize: bool): Option<Reading> {
    match if sanitize then Recovered(b) else Unpack(b.payload)
    case None => None
    case Some(m) =>
      if !sanitize then Some(Reading(b.number, b.id, b.parentId, m))
      else if m.header.None? then None
      else Some(Reading(b.number, EncodeHex(m.hash), EncodeHex(m.header.value.previousLedgerHash), m))
  }

  /** Two stored blocks the tool counts as equal. */
  ghost predicate CountAsEqual(a: BstreamBlock, b: BstreamBlock, sanitizeA: bool, sanitizeB: bool, strip: bool,
      drop: bytes -> bool) {
    var x, y := ReadAs(a, sanitizeA), ReadAs(b, sanitizeB);
    && x.Some? && y.Some?
    && x.value.number == y.value.number && x.value.id == y.value.id && x.value.parentId == y.value.parentId
    && if strip then SameButDropped(x.value.message, y.value.message, drop) else x.value.message == y.value.message
  }

  predicate TooLarge(m: M.Block) { |M.EncodeBlock(m)| >= TWO_63 }

  /** A block the tool can prepare: what is to be rewritten can be read, and packed again. */
  predicate Preparable(b: BstreamBlock, o: Side) {
    && (o.sanitize ==> Recovered(b).Some? && !TooLarge(Recovered(b).value))
    && (o.strip ==>
          && ReadAs(b, o.sanitize).Some?
          && var m := ReadAs(b, o.sanitize).value.message;
             (CleanMessage(m, o.drop) || !TooLarge(StripMessage(m, o.drop))))
  }

  /** A block after sanitizing, if that was asked for. */
  function Cleaned(b: BstreamBlock, sanitize: bool): Option<BstreamBlock> { if sanitize then Sanitized(b) else Some(b) }

  lemma CleanedReading(b: BstreamBlock, sanitize: bool)
    ensures Cleaned(b, sanitize).Some? <==> (sanitize ==> Recovered(b).Some? && !TooLarge(Recovered(b).value))
    ensures Cleaned(b, sanitize).Some? ==>
      var c, r := Cleaned(b, sanitize).value, ReadAs(b, sanitize);
      && c.number == b.number
      && (Unpack(c.payload).Some? <==> r.Some?)
      && (r.Some? ==> r.value == Reading(c.number, c.id, c.parentId, Unpack(c.payload).value))
  {
    SanitizedBlock(b);
    RecoveredExactly(b);
    hide Unpack, Recovered, Sanitized, Recoverable, Lower, EncodeB64, EncodeHex, M.EncodeBlock;
  }

  lemma StrippedReading(c: BstreamBlock, drop: bytes -> bool)
    ensures Stripped(c, drop).Some? <==>
      && Unpack(c.payload).Some?
      && var m := Unpack(c.payload).value; (CleanMessage(m, drop) || !TooLarge(StripMessage(m, drop)))
    ensures Stripped(c, drop).Some? ==>
      var s := Stripped(c, drop).value;
      && s == c.(payload := s.payload)
      && Unpack(s.payload) == Some(StripMessage(Unpack(c.payload).value, drop))
  {
    hide Unpack, CleanMessage, StripMessage, M.EncodeBlock;
    if Stripped(c, drop).Some? {
      StrippedReadsBack(c, drop);
    }
  }

  /** Which blocks can be prepared, and what a prepared block carries. */
  lemma PreparedReading(b: BstreamBlock, o: Side)
    ensures Prepared(b, o).Some? <==> Preparable(b, o)
    ensures Prepared(b, o).Some? ==>
      var p, r := Prepared(b, o).value, ReadAs(b, o.sanitize);
      && p.number == b.number
      && (Unpack(p.payload).Some? <==> r.Some?)
      && (r.Some? ==>
            && p.id == r.value.id && p.parentId == r.value.parentId && r.value.number == b.number
            && Unpack(p.payload) == Some(if o.strip then StripMessage(r.value.message, o.drop) else r.value.message))
  {
    CleanedReading(b, o.sanitize);
    if Cleaned(b, o.sanitize).Some? {
      StrippedReading(Cleaned(b, o.sanitize).value, o.drop);
    }
    hide Unpack, CleanMessage, StripMessage, Recovered, ReadAs, TooLarge, Stripped, Sanitized;
  }

  /**
   Two stored blocks, prepared in any way, pass for the same exactly when they count as equal;
   only stripping must be asked for on both sides or on neither, as the tool does.
   */
  lemma EqualExactlyWhen(a: BstreamBlock, b: BstreamBlock, o: Side, p: Side)
    requires o.strip == p.strip && o.drop == p.drop && Prepared(a, o).Some? && Prepared(b, p).Some?
    ensures SameBlock(Prepared(a, o).value, Prepared(b, p).value) <==>
      CountAsEqual(a, b, o.sanitize, p.sanitize, o.strip, o.drop)
  {
    PreparedReading(a, o);
    PreparedReading(b, p);
    var x, y := ReadAs(a, o.sanitize), ReadAs(b, p.sanitize);
    if x.Some? && y.Some? {
      StrippedMessagesAgreeExactly(x.value.message, y.value.message, o.drop);
    }
    hide Prepared, Preparable, ReadAs, Unpack, StripMessage, SameButDropped;
  }

  // ---- stores, block by block ----

  /** The block a store has under a number: the last one of that number within the range. */
  predicate LastOf(bs: seq<BstreamBlock>, start: nat, stop: nat, n: nat, i: nat) {
    && i < |bs| && bs[i].number == n && start <= n < stop
    && forall j :: i < j < |bs| ==> bs[j].number != n
  }

  ghost predicate Has(bs: seq<BstreamBlock>, start: nat, stop: nat, n: nat) {
    exists i: nat :: LastOf(bs, start, stop, n, i)
  }

  lemma {:induction false} ContentsExactly(bs: seq<BstreamBlock>, start: nat, stop: nat, o: Side, n: nat)
    requires Readable(bs, start, stop, o)
    ensures n in Contents(bs, start, stop, o) <==> Has(bs, start, stop, n)
    ensures forall i: nat :: LastOf(bs, start, stop, n, i) ==>
      Some(Contents(bs, start, stop, o)[n]) == Prepared(bs[i], o)
  {
    if bs != [] {
      hide Prepared;
      var k := |bs| - 1;
      var init, last := bs[..k], bs[k];
      assert Readable(init, start, stop, o) by {
        forall i | 0 <= i < |init| && start <= init[i].number < stop ensures Prepared(init[i], o).Some? {
          assert init[i] == bs[i];
        }
      }
      ContentsExactly(init, start, stop, o, n);
      HasStep(bs, start, stop, n);
      assert start <= bs[k].number < stop ==> Prepared(last, o).Some?;
      hide Readable, LastOf;
      if last.number == n && start <= n < stop {
        assert LastOf(bs, start, stop, n, k);
      } else if Has(init, start, stop, n) {
        var i: nat :| LastOf(init, start, stop, n, i);
        assert LastOf(bs, start, stop, n, i);
      }
    }
  }

  lemma HasStep(bs: seq<BstreamBlock>, start: nat, stop: nat, n: nat)
    requires bs != []
    ensures var k := |bs| - 1;
      if bs[k].number == n && start <= n < stop then forall i: nat :: LastOf(bs, start, stop, n, i) <==> i == k
      else forall i: nat :: LastOf(bs, start, stop, n, i) <==> LastOf(bs[..k], start, stop, n, i)
  {
  }

  /** Both stores have the number, and what they have under it counts as equal. */
  ghost predicate EqualAt(run: Run, n: nat) {
    var r, c := BundledBlocks(run.ref), BundledBlocks(run.cur);
    exists i: nat, j: nat ::
      && LastOf(r, run.start, run.stop, n, i) && LastOf(c, run.start, run.stop, n, j)
      && CountAsEqual(r[i], c[j], run.refSide.sanitize, run.curSide.sanitize, run.refSide.strip, run.refSide.drop)
  }

  ghost predicate InReference(run: Run, n: nat) { Has(BundledBlocks(run.ref), run.start, run.stop, n) }

  ghost predicate InCurrent(run: Run, n: nat) { Has(BundledBlocks(run.cur), run.start, run.stop, n) }

  ghost function Shared(run: Run): set<nat> {
    set n: nat | run.start <= n < run.stop && InReference(run, n) && InCurrent(run, n)
  }

  ghost function Unequal(run: Run): set<nat> {
    set n: nat | run.start <= n < run.stop && InReference(run, n) && InCurrent(run, n) && !EqualAt(run, n)
  }

  ghost function OnlyReference(run: Run): set<nat> {
    set n: nat | run.start <= n < run.stop && InReference(run, n) && !InCurrent(run, n)
  }

  ghost function OnlyCurrent(run: Run): set<nat> {
    set n: nat | run.start <= n < run.stop && InCurrent(run, n) && !InReference(run, n)
  }

  /** What the summary of a run has to count, on the stored blocks. */
  ghost function Expected(run: Run): Summary {
    Summary(|Shared(run)|, |Unequal(run)|, |OnlyReference(run)|, |OnlyCurrent(run)|)
  }

  /** The tool strips both sides or neither, and drops the same events. */
  ghost predicate OneStrip(run: Run) { run.refSide.strip == run.curSide.strip && run.refSide.drop == run.curSide.drop }

  lemma LastIsOne(bs: seq<BstreamBlock>, start: nat, stop: nat, n: nat, i: nat, j: nat)
    requires LastOf(bs, start, stop, n, i) && LastOf(bs, start, stop, n, j)
    ensures i == j
  {
  }

  lemma NumberDecides(run: Run, n: nat)
    requires run.AllRead() && OneStrip(run)
    ensures n in run.Ref() <==> InReference(run, n)
    ensures n in run.Cur() <==> InCurrent(run, n)
    ensures n in run.Ref() && n in run.Cur() ==> (SameBlock(run.Ref()[n], run.Cur()[n]) <==> EqualAt(run, n))
    ensures n in run.Ref() || n in run.Cur() ==> run.start <= n < run.stop
  {
    var r, c := BundledBlocks(run.ref), BundledBlocks(run.cur);
    StoreReadsWithItsBlocks(run.ref, run.start, run.stop, run.refSide);
    StoreReadsWithItsBlocks(run.cur, run.start, run.stop, run.curSide);
    StoreIsItsBlocks(run.ref, run.start, run.stop, run.refSide);
    StoreIsItsBlocks(run.cur, run.start, run.stop, run.curSide);
    ContentsExactly(r, run.start, run.stop, run.refSide, n);
    ContentsExactly(c, run.start, run.stop, run.curSide, n);
    hide AllReadable, Readable, Contents, StoreContents, BundledBlocks, SameBlock, CountAsEqual, Prepared;
    if InReference(run, n) && InCurrent(run, n) {
      var i: nat :| LastOf(r, run.start, run.stop, n, i);
      var j: nat :| LastOf(c, run.start, run.stop, n, j);
      EqualExactlyWhen(r[i], c[j], run.refSide, run.curSide);
      OnlyThese(run, n, i, j);
    }
  }

  lemma OnlyThese(run: Run, n: nat, i: nat, j: nat)
    requires LastOf(BundledBlocks(run.ref), run.start, run.stop, n, i)
    requires LastOf(BundledBlocks(run.cur), run.start, run.stop, n, j)
    ensures EqualAt(run, n) <==>
      CountAsEqual(BundledBlocks(run.ref)[i], BundledBlocks(run.cur)[j],
        run.refSide.sanitize, run.curSide.sanitize, run.refSide.strip, run.refSide.drop)
  {
    hide CountAsEqual, BundledBlocks;
    if EqualAt(run, n) {
      var r, c := BundledBlocks(run.ref), BundledBlocks(run.cur);
      var k: nat, l: nat :|
        && LastOf(r, run.start, run.stop, n, k) && LastOf(c, run.start, run.stop, n, l)
        && CountAsEqual(r[k], c[l], run.refSide.sanitize, run.curSide.sanitize, run.refSide.strip, run.refSide.drop);
      LastIsOne(r, run.start, run.stop, n, i, k);
      LastIsOne(c, run.start, run.stop, n, j, l);
    }
  }

  /** Number by number, `r` and `c` are what the stored blocks say. */
  ghost predicate Decided(run: Run, r: Blocks, c: Blocks, n: nat) {
    && (n in r <==> InReference(run, n))
    && (n in c <==> InCurrent(run, n))
    && (n in r && n in c ==> (SameBlock(r[n], c[n]) <==> EqualAt(run, n)))
    && (n in r || n in c ==> run.start <= n < run.stop)
    && (EqualAt(run, n) ==> n in r && n in c)
  }

  lemma CountsFollow(run: Run, r: Blocks, c: Blocks)
    requires forall n: nat :: Decided(run, r, c, n)
    ensures Summarize(r, c) == Expected(run)
  {
    hide SameBlock, EqualAt, InReference, InCurrent;
    forall n: nat
      ensures n in Both(r, c) <==> n in Shared(run)
      ensures n in Differing(r, c) <==> n in Unequal(run)
      ensures n in Only(r, c) <==> n in OnlyReference(run)
      ensures n in Only(c, r) <==> n in OnlyCurrent(run)
    {
      assert Decided(run, r, c, n);
    }
    hide Both, Differing, Only, Shared, Unequal, OnlyReference, OnlyCurrent, Decided;
    assert Both(r, c) == Shared(run) && Differing(r, c) == Unequal(run);
    assert Only(r, c) == OnlyReference(run) && Only(c, r) == OnlyCurrent(run);
  }

  lemma VerdictFollows(run: Run, r: Blocks, c: Blocks)
    requires forall n: nat :: Decided(run, r, c, n)
    ensures Identical(r, c) <==>
      forall n: nat :: run.start <= n < run.stop && (InReference(run, n) || InCurrent(run, n)) ==> EqualAt(run, n)
  {
    hide SameBlock, EqualAt, InReference, InCurrent;
    if Identical(r, c) {
      forall n: nat | run.start <= n < run.stop && (InReference(run, n) || InCurrent(run, n)) ensures EqualAt(run, n) {
        assert Decided(run, r, c, n) && (n in r.Keys <==> n in c.Keys);
      }
    } else if forall n: nat ::
        run.start <= n < run.stop && (InReference(run, n) || InCurrent(run, n)) ==> EqualAt(run, n)
    {
      forall n | n in r || n in c ensures n in r && n in c && SameBlock(r[n], c[n]) {
        assert Decided(run, r, c, n);
      }
    }
  }

  /**
   The counts of the comparison, said on the stored blocks: numbers both stores have, those
   among them whose blocks do not count as equal, and numbers only one of them has.
   */
  lemma SummaryCounts(run: Run)
    requires run.AllRead() && OneStrip(run)
    ensures Summarize(run.Ref(), run.Cur()) == Expected(run)
    ensures Identical(run.Ref(), run.Cur()) <==>
      forall n: nat :: run.start <= n < run.stop && (InReference(run, n) || InCurrent(run, n)) ==> EqualAt(run, n)
  {
    forall n: nat ensures Decided(run, run.Ref(), run.Cur(), n) {
      NumberDecides(run, n);
    }
    hide Run.Ref, Run.Cur, Run.AllRead, Decided, Summarize, Expected, Identical;
    CountsFollow(run, run.Ref(), run.Cur());
    VerdictFollows(run, run.Ref(), run.Cur());
  }

  /** Every bundle reads exactly when every stored block of the range can be prepared. */
  lemma ReadsExactlyWhen(run: Run)
    ensures run.AllRead() <==>
      && (forall b :: b in BundledBlocks(run.ref) && run.start <= b.number < run.stop ==> Preparable(b, run.refSide))
      && (forall b :: b in BundledBlocks(run.cur) && run.start <= b.number < run.stop ==> Preparable(b, run.curSide))
  {
    StoreReadsWithItsBlocks(run.ref, run.start, run.stop, run.refSide);
    StoreReadsWithItsBlocks(run.cur, run.start, run.stop, run.curSide);
    ReadableExactly(BundledBlocks(run.ref), run.start, run.stop, run.refSide);
    ReadableExactly(BundledBlocks(run.cur), run.start, run.stop, run.curSide);
    hide AllReadable, Readable, BundledBlocks, Preparable;
  }

  lemma ReadableExactly(bs: seq<BstreamBlock>, start: nat, stop: nat, o: Side)
    ensures Readable(bs, start, stop, o) <==> forall b :: b in bs && start <= b.number < stop ==> Preparable(b, o)
  {
    forall b ensures Prepared(b, o).Some? <==> Preparable(b, o) {
      PreparedReading(b, o);
    }
    hide Prepared, Preparable;
    if Readable(bs, start, stop, o) {
      forall b | b in bs && start <= b.number < stop ensures Preparable(b, o) {
        var i :| 0 <= i < |bs| && bs[i] == b;
        assert Prepared(bs[i], o).Some?;
      }
    } else {
      var i :| 0 <= i < |bs| && start <= bs[i].number < stop && Prepared(bs[i], o).None?;
      assert bs[i] in bs && !Preparable(bs[i], o);
    }
  }

  /** A file of the range named with number `n`, and no later one is. */
  predicate LastNamed(files: seq<File>, start: nat, stop: nat, n: nat, i: nat) {
    && i < |files| && NamedNumber(files[i]) == Some(n) && start <= n < stop
    && forall j :: i < j < |files| ==> NamedNumber(files[j]) != Some(n)
  }

  /** The flat load has, under the number a file is named with, the first block of the last such file. */
  lemma {:induction false} OneblockExactly(files: seq<File>, start: nat, stop: nat, o: Side, n: nat)
    requires Loads(files, start, stop, o)
    ensures n in OneblockContents(files, start, stop, o) <==> exists i: nat :: LastNamed(files, start, stop, n, i)
    ensures forall i: nat :: LastNamed(files, start, stop, n, i) ==>
      && files[i].blocks != []
      && Some(OneblockContents(files, start, stop, o)[n]) == Prepared(files[i].blocks[0], o)
  {
    if files != [] {
      var k := |files| - 1;
      var init := files[..k];
      LoadStep(files, k, start, stop, o);
      assert files[..k + 1] == files;
      OneblockExactly(init, start, stop, o, n);
      hide Prepared, NamedNumber, OneblockContents, Loads;
      NamedStep(files, start, stop, n);
      hide LastNamed;
      if NamedNumber(files[k]) == Some(n) && start <= n < stop {
        assert LastNamed(files, start, stop, n, k);
      } else if exists i: nat :: LastNamed(init, start, stop, n, i) {
        var i: nat :| LastNamed(init, start, stop, n, i);
        assert LastNamed(files, start, stop, n, i);
      }
    }
  }

  lemma NamedStep(files: seq<File>, start: nat, stop: nat, n: nat)
    requires files != []
    ensures var k := |files| - 1;
      if NamedNumber(files[k]) == Some(n) && start <= n < stop
      then forall i: nat :: LastNamed(files, start, stop, n, i) <==> i == k
      else forall i: nat :: LastNamed(files, start, stop, n, i) <==> LastNamed(files[..k], start, stop, n, i)
  {
    hide NamedNumber;
  }

  // ---- droppable events are not seen ----

  /** The same block, but for droppable diagnostic events in its payload. */
  ghost predicate NoisyCopy(a: BstreamBlock, b: BstreamBlock, drop: bytes -> bool) {
    || a == b
    || (&& b == a.(payload := b.payload)
        && Unpack(a.payload).Some? && Unpack(b.payload).Some?
        && SameButDropped(Unpack(a.payload).value, Unpack(b.payload).value, drop))
  }

  ghost predicate NoisyCopies(xs: seq<BstreamBlock>, ys: seq<BstreamBlock>, drop: bytes -> bool) {
    |xs| == |ys| && forall i :: 0 <= i < |xs| ==> NoisyCopy(xs[i], ys[i], drop)
  }

  lemma NoisyReading(a: BstreamBlock, b: BstreamBlock, sanitize: bool, drop: bytes -> bool)
    requires NoisyCopy(a, b, drop)
    ensures var x, y := ReadAs(a, sanitize), ReadAs(b, sanitize);
      && (x.Some? <==> y.Some?)
      && (x.Some? ==>
            && x.value == y.value.(message := x.value.message)
            && SameButDropped(x.value.message, y.value.message, drop))
  {
    hide Unpack, ConvertBrokenHash, SameTransactionButDropped, EncodeHex;
    if a == b {
      if ReadAs(a, sanitize).Some? {
        StrippedMessagesAgreeExactly(ReadAs(a, sanitize).value.message, ReadAs(b, sanitize).value.message, drop);
      }
    }
  }

  lemma NoiseIsNotSeen(a: BstreamBlock, a': BstreamBlock, b: BstreamBlock, b': BstreamBlock,
      sanitizeA: bool, sanitizeB: bool, drop: bytes -> bool)
    requires NoisyCopy(a, a', drop) && NoisyCopy(b, b', drop)
    ensures CountAsEqual(a, b, sanitizeA, sanitizeB, true, drop) <==>
      CountAsEqual(a', b', sanitizeA, sanitizeB, true, drop)
  {
    NoisyReading(a, a', sanitizeA, drop);
    NoisyReading(b, b', sanitizeB, drop);
    var x, x', y, y' := ReadAs(a, sanitizeA), ReadAs(a', sanitizeA), ReadAs(b, sanitizeB), ReadAs(b', sanitizeB);
    hide ReadAs, SameButDropped, NoisyCopy;
    if x.Some? && y.Some? {
      StrippedMessagesAgreeExactly(x.value.message, x'.value.message, drop);
      StrippedMessagesAgreeExactly(y.value.message, y'.value.message, drop);
      StrippedMessagesAgreeExactly(x.value.message, y.value.message, drop);
      StrippedMessagesAgreeExactly(x'.value.message, y'.value.message, drop);
    }
    hide StripMessage;
  }

  lemma NoisyPositions(xs: seq<BstreamBlock>, ys: seq<BstreamBlock>, start: nat, stop: nat, n: nat, drop: bytes -> bool)
    requires NoisyCopies(xs, ys, drop)
    ensures forall i: nat :: LastOf(xs, start, stop, n, i) <==> LastOf(ys, start, stop, n, i)
    ensures Has(xs, start, stop, n) <==> Has(ys, start, stop, n)
  {
    hide SameButDropped, Unpack;
    forall i | 0 <= i < |xs| ensures xs[i].number == ys[i].number {
      assert NoisyCopy(xs[i], ys[i], drop);
    }
    hide NoisyCopies;
    forall i: nat ensures LastOf(xs, start, stop, n, i) <==> LastOf(ys, start, stop, n, i) {}
    hide LastOf;
    if Has(xs, start, stop, n) {
      var i: nat :| LastOf(xs, start, stop, n, i);
      assert LastOf(ys, start, stop, n, i);
    }
  }

  lemma NoiseAt(run: Run, noisy: Run, n: nat)
    requires OneStrip(run) && run.refSide.strip && noisy == run.(ref := noisy.ref, cur := noisy.cur)
    requires NoisyCopies(BundledBlocks(run.ref), BundledBlocks(noisy.ref), run.refSide.drop)
    requires NoisyCopies(BundledBlocks(run.cur), BundledBlocks(noisy.cur), run.refSide.drop)
    ensures InReference(run, n) <==> InReference(noisy, n)
    ensures InCurrent(run, n) <==> InCurrent(noisy, n)
    ensures EqualAt(run, n) <==> EqualAt(noisy, n)
  {
    var r, c, r', c' :=
      BundledBlocks(run.ref), BundledBlocks(run.cur), BundledBlocks(noisy.ref), BundledBlocks(noisy.cur);
    NoisyPositions(r, r', run.start, run.stop, n, run.refSide.drop);
    NoisyPositions(c, c', run.start, run.stop, n, run.refSide.drop);
    hide BundledBlocks, CountAsEqual, NoisyCopy;
    if InReference(run, n) && InCurrent(run, n) {
      var i: nat :| LastOf(r, run.start, run.stop, n, i);
      var j: nat :| LastOf(c, run.start, run.stop, n, j);
      OnlyThese(run, n, i, j);
      OnlyThese(noisy, n, i, j);
      NoiseIsNotSeen(r[i], r'[i], c[j], c'[j], run.refSide.sanitize, run.curSide.sanitize, run.refSide.drop);
    }
  }

  /**
   With stripping on, inserting or removing droppable events in blocks of either store changes
   neither the counts nor the verdict.
   */
  lemma NoiseChangesNothing(run: Run, noisy: Run)
    requires OneStrip(run) && run.refSide.strip && noisy == run.(ref := noisy.ref, cur := noisy.cur)
    requires run.AllRead() && noisy.AllRead()
    requires NoisyCopies(BundledBlocks(run.ref), BundledBlocks(noisy.ref), run.refSide.drop)
    requires NoisyCopies(BundledBlocks(run.cur), BundledBlocks(noisy.cur), run.refSide.drop)
    ensures Summarize(noisy.Ref(), noisy.Cur()) == Summarize(run.Ref(), run.Cur())
    ensures Identical(noisy.Ref(), noisy.Cur()) <==> Identical(run.Ref(), run.Cur())
  {
    SummaryCounts(run);
    SummaryCounts(noisy);
    forall n: nat
      ensures InReference(run, n) <==> InReference(noisy, n)
      ensures InCurrent(run, n) <==> InCurrent(noisy, n)
      ensures EqualAt(run, n) <==> EqualAt(noisy, n)
    {
      NoiseAt(run, noisy, n);
    }
    hide Run.Ref, Run.Cur, Run.AllRead, Summarize, Identical, InReference, InCurrent, EqualAt, NoisyCopies;
    SameExpected(run, noisy);
  }

  lemma SameExpected(run: Run, noisy: Run)
    requires run.start == noisy.start && run.stop == noisy.stop
    requires forall n: nat :: InReference(run, n) <==> InReference(noisy, n)
    requires forall n: nat :: InCurrent(run, n) <==> InCurrent(noisy, n)
    requires forall n: nat :: EqualAt(run, n) <==> EqualAt(noisy, n)
    ensures Expected(run) == Expected(noisy)
  {
    hide InReference, InCurrent, EqualAt;
    assert Shared(run) == Shared(noisy) && Unequal(run) == Unequal(noisy);
    assert OnlyReference(run) == OnlyReference(noisy) && OnlyCurrent(run) == OnlyCurrent(noisy);
  }
}
