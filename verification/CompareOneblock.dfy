/**
 The comparison over one-block files: both stores are loaded whole, then compared number by
 number. On stores that hold the same blocks it counts what the bundled comparison counts.
 */
module CompareOneblock {
  import opened Base
  import opened TextCodecs
  import opened Bstream
  import opened CompareBlocks
  import opened CompareStores

  const NUMBER_WIDTH := 10

  /** The block number a one-block file's name starts with; other files are passed over. */
  function NamedNumber(f: File): Option<uint64> {
    if |f.name| < NUMBER_WIDTH then None else ParseUint64(f.name[..NUMBER_WIDTH])
  }

  predicate Wanted(f: File, start: nat, stop: nat) {
    NamedNumber(f).Some? && start <= NamedNumber(f).value < stop
  }

  /** The listing's order: names start with ten digits, so numbers do not decrease. */
  predicate Listed(files: seq<File>) {
    forall i, j :: 0 <= i < j < |files| && NamedNumber(files[i]).Some? && NamedNumber(files[j]).Some?
      ==> NamedNumber(files[i]).value <= NamedNumber(files[j]).value
  }

  predicate FileLoads(f: File, start: nat, stop: nat, o: Side) {
    Wanted(f, start, stop) ==> f.blocks != [] && Prepared(f.blocks[0], o).Some?
  }

  predicate Loads(files: seq<File>, start: nat, stop: nat, o: Side) {
    forall i :: 0 <= i < |files| ==> FileLoads(files[i], start, stop, o)
  }

  /** The blocks of [start, stop), keyed by the number in the file's name. */
  function OneblockContents(files: seq<File>, start: nat, stop: nat, o: Side): (m: Blocks)
    ensures forall n :: n in m ==> start <= n < stop
  {
    if files == [] then map[]
    else
      var last, init := files[|files| - 1], OneblockContents(files[..|files| - 1], start, stop, o);
      if Wanted(last, start, stop) && FileLoads(last, start, stop, o)
      then init[NamedNumber(last).value := Prepared(last.blocks[0], o).value] else init
  }

  lemma {:induction false} NothingWanted(files: seq<File>, k: nat, start: nat, stop: nat, o: Side)
    requires k <= |files| && forall i :: k <= i < |files| ==> !Wanted(files[i], start, stop)
    ensures OneblockContents(files, start, stop, o) == OneblockContents(files[..k], start, stop, o)
    ensures Loads(files[..k], start, stop, o) ==> Loads(files, start, stop, o)
    decreases |files|
  {
    hide Wanted, Prepared;
    if k == |files| {
      assert files[..k] == files;
    } else {
      var init := files[..|files| - 1];
      NothingWanted(init, k, start, stop, o);
      assert init[..k] == files[..k];
    }
  }

  lemma LoadStep(files: seq<File>, i: nat, start: nat, stop: nat, o: Side)
    requires i < |files|
    ensures OneblockContents(files[..i + 1], start, stop, o)
         == (var init := OneblockContents(files[..i], start, stop, o);
             if Wanted(files[i], start, stop) && FileLoads(files[i], start, stop, o)
             then init[NamedNumber(files[i]).value := Prepared(files[i].blocks[0], o).value] else init)
    ensures Loads(files[..i + 1], start, stop, o)
      <==> Loads(files[..i], start, stop, o) && FileLoads(files[i], start, stop, o)
  {
    hide Prepared, Wanted;
    assert files[..i + 1][..i] == files[..i] && files[..i + 1][i] == files[i];
    assert forall j :: 0 <= j < i ==> files[..i + 1][j] == files[..i][j];
  }

  lemma PastTheRange(files: seq<File>, i: nat, start: nat, stop: nat)
    requires Listed(files) && i < |files| && NamedNumber(files[i]).Some? && NamedNumber(files[i]).value >= stop
    ensures forall j :: i <= j < |files| ==> !Wanted(files[j], start, stop)
  {
    hide NamedNumber;
  }

  /** Reads a store's one-block files of the range; a file without a block is a read error. */
  method LoadOneblockRange(files: seq<File>, start: uint64, stop: uint64, o: Side)
    returns (ok: bool, m: Blocks)
    requires Listed(files)
    ensures ok <==> Loads(files, start, stop, o)
    ensures ok ==> m == OneblockContents(files, start, stop, o)
  {
    m := map[];
    assert OneblockContents(files[..0], start, stop, o) == map[];
    hide Prepared, OneblockContents, Listed;
    var i := 0;
    while i < |files|
      invariant i <= |files| && Loads(files[..i], start, stop, o)
      invariant m == OneblockContents(files[..i], start, stop, o)
    {
      var f := files[i];
      LoadStep(files, i, start, stop, o);
      i := i + 1;
      if |f.name| < NUMBER_WIDTH {
        continue;
      }
      var n := ParseUint64(f.name[..NUMBER_WIDTH]);
      if n.None? || n.value < start {
        continue;
      }
      if n.value >= stop {
        PastTheRange(files, i - 1, start, stop);
        NothingWanted(files, i - 1, start, stop, o);
        return true, m;
      }
      if f.blocks == [] {
        NotLoaded(files, i - 1, start, stop, o);
        return false, m;
      }
      var prepared := Prepare(f.blocks[0], o);
      if prepared.None? {
        NotLoaded(files, i - 1, start, stop, o);
        return false, m;
      }
      m := m[n.value := prepared.value];
    }
    assert files[..|files|] == files;
    return true, m;
  }

  lemma NotLoaded(files: seq<File>, i: nat, start: nat, stop: nat, o: Side)
    requires i < |files| && !FileLoads(files[i], start, stop, o)
    ensures !Loads(files, start, stop, o)
  {
  }

  /**
   The one-block comparison. Here any difference stops the run when asked to, a block
   missing on either side included.
   */
  method RunOneblockCompare(ref: seq<File>, cur: seq<File>, start: uint64, stop: uint64,
                            refSide: Side, curSide: Side, stopOnFirst: bool)
    returns (ok: bool, stopped: bool, t: Summary)
    requires Listed(ref) && Listed(cur)
    ensures ok <==> Loads(ref, start, stop, refSide) && Loads(cur, start, stop, curSide)
    ensures var R, C := OneblockContents(ref, start, stop, refSide), OneblockContents(cur, start, stop, curSide);
      ok ==> (!stopped ==> t == Summarize(R, C)) && (t.Match() <==> Identical(R, C))
    ensures stopped ==> ok && stopOnFirst && t.different + t.missingInCurrent + t.missingInReference == 1
    ensures ok && stopOnFirst && !stopped ==> t.Match()
  {
    hide Loads, OneblockContents, Listed, Identical, Summarize;
    t, stopped := Summary(0, 0, 0, 0), false;
    var refMap, curMap;
    ok, refMap := LoadOneblockRange(ref, start, stop, refSide);
    if !ok {
      return;
    }
    ok, curMap := LoadOneblockRange(cur, start, stop, curSide);
    if !ok {
      return;
    }
    ghost var next;
    t, stopped, next := CompareNumbers(refMap, curMap, start, stop, stopOnFirst);
    CountsOfRange(refMap, curMap, start, next);
    if stopped {
      hide Counted, Tally;
      if Identical(refMap, curMap) {
        PartialDifferenceShows(refMap, curMap, Numbers(start, next));
      }
    } else {
      WholeRange(refMap, curMap, start, stop);
      MatchMeansIdentical(refMap, curMap);
    }
  }

  method CompareNumbers(refMap: Blocks, curMap: Blocks, start: nat, stop: nat, stopOnFirst: bool)
    returns (t: Summary, stopped: bool, ghost next: nat)
    ensures t == Counted(refMap, curMap, start, next)
    ensures !stopped ==> next == Max(start, stop)
    ensures stopped ==> stopOnFirst && t.different + t.missingInCurrent + t.missingInReference == 1
    ensures stopOnFirst && !stopped ==> t.Match()
  {
    hide One, DifferAt;
    t, stopped, next := Summary(0, 0, 0, 0), false, start;
    var n := start;
    while n < stop
      invariant next == n && start <= n <= Max(start, stop) && t == Counted(refMap, curMap, start, n)
      invariant stopOnFirst ==> t.Match()
    {
      var differs;
      var before := t;
      t, differs := CompareNumber(refMap, curMap, n, t);
      OneShows(refMap, curMap, n);
      n := n + 1;
      next := n;
      if stopOnFirst && (differs || (n - 1 in refMap) != (n - 1 in curMap)) {
        stopped := true;
        return;
      }
    }
  }

  lemma OneShows(r: Blocks, c: Blocks, n: nat)
    ensures var one := One(r, c, n);
      one.different + one.missingInCurrent + one.missingInReference
        == if DifferAt(r, c, n) || ((n in r) != (n in c)) then 1 else 0
  {
    hide SameBlock;
  }

  lemma CountsOfRange(r: Blocks, c: Blocks, start: nat, next: nat)
    ensures Counted(r, c, start, next) == Tally(r, c, Numbers(start, next))
  {
    CountedIsTally(r, c, start, next);
  }

  lemma WholeRange(r: Blocks, c: Blocks, start: nat, stop: nat)
    requires forall n :: n in r || n in c ==> start <= n < stop
    ensures Tally(r, c, Numbers(start, Max(start, stop))) == Summarize(r, c)
  {
    hide Tally, Summarize;
    TallyOfAll(r, c, Numbers(start, Max(start, stop)));
  }

  // ---- both comparisons on the same blocks ----

  function BundleBlocks(f: File): seq<BstreamBlock> { if BundleStart(f).Some? then f.blocks else [] }

  /** The block a one-block file holds, if its name is one. */
  function FirstBlock(f: File): seq<BstreamBlock> {
    if NamedNumber(f).Some? then f.blocks[..Min(1, |f.blocks|)] else []
  }

  predicate NameTells(f: File) {
    NamedNumber(f).Some? ==> f.blocks != [] && f.blocks[0].number == NamedNumber(f).value
  }

  /** Each one-block file holds the block its name numbers. */
  predicate NamesTell(files: seq<File>) {
    forall f :: f in files ==> NameTells(f)
  }

  function OneblockBlocks(files: seq<File>): seq<BstreamBlock> {
    if files == [] then []
    else
      var last := files[|files| - 1];
      OneblockBlocks(files[..|files| - 1]) + FirstBlock(last)
  }

  function BundledBlocks(files: seq<File>): seq<BstreamBlock> {
    if files == [] then []
    else
      var last := files[|files| - 1];
      BundledBlocks(files[..|files| - 1]) + BundleBlocks(last)
  }

  lemma {:induction false} ContentsConcat(a: seq<BstreamBlock>, b: seq<BstreamBlock>, start: nat, stop: nat, o: Side)
    ensures Contents(a + b, start, stop, o) == Contents(a, start, stop, o) + Contents(b, start, stop, o)
  {
    hide Prepared;
    if b == [] {
      assert a + b == a;
    } else {
      var init := b[..|b| - 1];
      ContentsConcat(a, init, start, stop, o);
      assert (a + b)[..|a + b| - 1] == a + init;
    }
  }

  /** A store of bundles holds what its bundles' blocks, one after the other, hold. */
  lemma {:induction false} StoreIsItsBlocks(files: seq<File>, start: nat, stop: nat, o: Side)
    ensures StoreContents(files, start, stop, o) == Contents(BundledBlocks(files), start, stop, o)
  {
    hide Prepared, Contents, BundleStart;
    if files == [] {
      EmptyContents(start, stop, o);
    } else {
      var init, last := files[..|files| - 1], files[|files| - 1];
      StoreIsItsBlocks(init, start, stop, o);
      ContentsConcat(BundledBlocks(init), if BundleStart(last).Some? then last.blocks else [], start, stop, o);
      EmptyContents(start, stop, o);
    }
  }

  lemma EmptyContents(start: nat, stop: nat, o: Side)
    ensures Contents([], start, stop, o) == map[]
  {
  }

  lemma OneblockLast(files: seq<File>)
    requires files != [] && NamesTell(files)
    ensures var init, last := files[..|files| - 1], files[|files| - 1];
      NamesTell(init) && NameTells(last) && OneblockBlocks(files) == OneblockBlocks(init) + FirstBlock(last)
  {
    var init, last := files[..|files| - 1], files[|files| - 1];
    assert last in files && forall f :: f in init ==> f in files;
    hide NamedNumber;
  }

  /** So does a store of one-block files whose names tell the truth. */
  lemma {:induction false} OneblockIsItsBlocks(files: seq<File>, start: nat, stop: nat, o: Side)
    requires NamesTell(files)
    ensures OneblockContents(files, start, stop, o) == Contents(OneblockBlocks(files), start, stop, o)
  {
    if files == [] {
      EmptyContents(start, stop, o);
    } else {
      var init, last := files[..|files| - 1], files[|files| - 1];
      OneblockLast(files);
      LoadStep(files, |init|, start, stop, o);
      assert files[..|files|] == files;
      hide Contents, OneblockContents, OneblockBlocks, FirstBlock, NamesTell, NameTells;
      hide Prepared, Wanted, FileLoads, NamedNumber;
      OneblockIsItsBlocks(init, start, stop, o);
      ContentsConcat(OneblockBlocks(init), FirstBlock(last), start, stop, o);
      OneFile(last, start, stop, o);
    }
  }

  /** What one such file adds. */
  lemma OneFile(f: File, start: nat, stop: nat, o: Side)
    requires NameTells(f)
    ensures Contents(FirstBlock(f), start, stop, o)
         == if Wanted(f, start, stop) && FileLoads(f, start, stop, o)
            then map[NamedNumber(f).value := Prepared(f.blocks[0], o).value] else map[]
  {
    hide Prepared, NamedNumber;
    EmptyContents(start, stop, o);
    if NamedNumber(f).Some? {
      assert FirstBlock(f) == [f.blocks[0]];
    }
  }

  lemma ReadableConcat(a: seq<BstreamBlock>, b: seq<BstreamBlock>, start: nat, stop: nat, o: Side)
    ensures Readable(a + b, start, stop, o) <==> Readable(a, start, stop, o) && Readable(b, start, stop, o)
  {
    hide Prepared;
    assert forall i :: 0 <= i < |a| ==> (a + b)[i] == a[i];
    assert forall i :: 0 <= i < |b| ==> (a + b)[|a| + i] == b[i];
    if Readable(a + b, start, stop, o) {
      forall i | 0 <= i < |b| && start <= b[i].number < stop ensures Prepared(b[i], o).Some? {
        assert (a + b)[|a| + i] == b[i];
      }
    }
  }

  lemma BundledLast(files: seq<File>, start: nat, stop: nat, o: Side)
    requires files != []
    ensures var init, last := files[..|files| - 1], files[|files| - 1];
      && BundledBlocks(files) == BundledBlocks(init) + BundleBlocks(last)
      && (AllReadable(files, start, stop, o) <==>
            AllReadable(init, start, stop, o) && FileReadable(last, start, stop, o))
  {
    var init, last := files[..|files| - 1], files[|files| - 1];
    assert files == init + [last];
    forall f ensures f in files <==> f in init || f == last {
      if f == last { assert files[|files| - 1] == f; }
    }
    hide FileReadable;
  }

  lemma BundleReadsWithItsBlocks(f: File, start: nat, stop: nat, o: Side)
    ensures FileReadable(f, start, stop, o) <==> Readable(BundleBlocks(f), start, stop, o)
  {
    hide Prepared, BundleStart;
  }

  /** The bundles of a store all read exactly when their blocks, one after the other, can be prepared. */
  lemma {:induction false} StoreReadsWithItsBlocks(files: seq<File>, start: nat, stop: nat, o: Side)
    ensures AllReadable(files, start, stop, o) <==> Readable(BundledBlocks(files), start, stop, o)
  {
    if files != [] {
      var init, last := files[..|files| - 1], files[|files| - 1];
      BundledLast(files, start, stop, o);
      hide BundledBlocks, BundleBlocks, AllReadable, FileReadable, Readable;
      StoreReadsWithItsBlocks(init, start, stop, o);
      BundleReadsWithItsBlocks(last, start, stop, o);
      ReadableConcat(BundledBlocks(init), BundleBlocks(last), start, stop, o);
    }
  }

  /** So do one-block files whose names tell the truth. */
  lemma {:induction false} OneblockLoadsWithItsBlocks(files: seq<File>, start: nat, stop: nat, o: Side)
    requires NamesTell(files)
    ensures Loads(files, start, stop, o) <==> Readable(OneblockBlocks(files), start, stop, o)
  {
    if files != [] {
      var init, last := files[..|files| - 1], files[|files| - 1];
      OneblockLast(files);
      LoadStep(files, |init|, start, stop, o);
      assert files[..|files|] == files;
      hide OneblockBlocks, FirstBlock, NamesTell, NameTells, NamedNumber, Loads, FileLoads, Readable, OneblockContents;
      OneblockLoadsWithItsBlocks(init, start, stop, o);
      LastLoads(last, start, stop, o);
      ReadableConcat(OneblockBlocks(init), FirstBlock(last), start, stop, o);
    }
  }

  lemma LastLoads(f: File, start: nat, stop: nat, o: Side)
    requires NameTells(f)
    ensures FileLoads(f, start, stop, o) <==> Readable(FirstBlock(f), start, stop, o)
  {
    hide Prepared, NamedNumber;
    if NamedNumber(f).Some? {
      assert FirstBlock(f) == [f.blocks[0]];
    }
  }

  /**
   The two comparisons agree: on stores that hold the same blocks in the same order, bundled
   and one-block, one reads without error exactly when the other does, and the summaries that
   both must reach without stopping are the same.
   */
  lemma BothPathsAgree(run: Run, flatRef: seq<File>, flatCur: seq<File>)
    requires NamesTell(flatRef) && NamesTell(flatCur)
    requires BundledBlocks(run.ref) == OneblockBlocks(flatRef) && BundledBlocks(run.cur) == OneblockBlocks(flatCur)
    ensures run.AllRead() <==>
      && Loads(flatRef, run.start, run.stop, run.refSide)
      && Loads(flatCur, run.start, run.stop, run.curSide)
    ensures Summarize(run.Ref(), run.Cur())
         == Summarize(OneblockContents(flatRef, run.start, run.stop, run.refSide),
                      OneblockContents(flatCur, run.start, run.stop, run.curSide))
  {
    hide Summarize, Contents, StoreContents, OneblockContents, BundledBlocks, OneblockBlocks, NamesTell;
    hide Loads, Readable, AllReadable;
    StoreReadsWithItsBlocks(run.ref, run.start, run.stop, run.refSide);
    StoreReadsWithItsBlocks(run.cur, run.start, run.stop, run.curSide);
    OneblockLoadsWithItsBlocks(flatRef, run.start, run.stop, run.refSide);
    OneblockLoadsWithItsBlocks(flatCur, run.start, run.stop, run.curSide);
    StoreIsItsBlocks(run.ref, run.start, run.stop, run.refSide);
    StoreIsItsBlocks(run.cur, run.start, run.stop, run.curSide);
    OneblockIsItsBlocks(flatRef, run.start, run.stop, run.refSide);
    OneblockIsItsBlocks(flatCur, run.start, run.stop, run.curSide);
  }
}
