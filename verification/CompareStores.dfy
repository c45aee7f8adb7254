/**
 The comparison of two stores: two walks over hundred-block bundles, or one pass over
 one-block files, against one statement about the sets of blocks the stores hold.
 */
module CompareStores {
  import opened Base
  import opened TextCodecs
  import opened Bstream
  import opened FixHashes
  import opened Sanitize
  import opened CompareBlocks

  /** How one side is prepared before it is compared. */
  datatype Side = Side(sanitize: bool, strip: bool, drop: bytes -> bool)

  function Prepared(b: BstreamBlock, o: Side): (r: Option<BstreamBlock>)
    ensures r.Some? ==> r.value.number == b.number
  {
    var clean := if o.sanitize then Sanitized(b) else Some(b);
    if clean.None? || !o.strip then clean else Stripped(clean.value, o.drop)
  }

  /** The blocks of [start, stop) by number, prepared; a later one replaces an earlier one. */
  function Contents(bs: seq<BstreamBlock>, start: nat, stop: nat, o: Side): (m: map<nat, BstreamBlock>)
    ensures forall n :: n in m ==> start <= n < stop
  {
    if bs == [] then map[]
    else
      var last, init := bs[|bs| - 1], Contents(bs[..|bs| - 1], start, stop, o);
      if start <= last.number < stop && Prepared(last, o).Some?
      then init[last.number := Prepared(last, o).value] else init
  }

  predicate Readable(bs: seq<BstreamBlock>, start: nat, stop: nat, o: Side) {
    forall i :: 0 <= i < |bs| && start <= bs[i].number < stop ==> Prepared(bs[i], o).Some?
  }

  /** What a store of bundles holds in [start, stop). */
  function StoreContents(files: seq<File>, start: nat, stop: nat, o: Side): (m: map<nat, BstreamBlock>)
    ensures forall n :: n in m ==> start <= n < stop
  {
    if files == [] then map[]
    else
      var last := files[|files| - 1];
      StoreContents(files[..|files| - 1], start, stop, o)
        + if BundleStart(last).Some? then Contents(last.blocks, start, stop, o) else map[]
  }

  /** Prepares one block in place, as both readers do. */
  method Prepare(blk: BstreamBlock, o: Side) returns (r: Option<BstreamBlock>)
    ensures r == Prepared(blk, o)
  {
    hide Sanitized, Stripped;
    var cell := new BlockCell(blk);
    if o.sanitize {
      var ok := SanitizeBlockInPlace(cell);
      if !ok {
        return None;
      }
    }
    if o.strip {
      var ok := StripNonDeterministicInPlace(cell, o.drop);
      if !ok {
        return None;
      }
    }
    var out := cell.Read();
    return Some(out);
  }

  method ReadMergedBundle(f: File, start: uint64, stop: uint64, o: Side)
    returns (ok: bool, m: map<nat, BstreamBlock>)
    ensures ok <==> Readable(f.blocks, start, stop, o)
    ensures ok ==> m == Contents(f.blocks, start, stop, o)
  {
    hide Prepared;
    m := map[];
    for i := 0 to |f.blocks|
      invariant Readable(f.blocks[..i], start, stop, o) && m == Contents(f.blocks[..i], start, stop, o)
    {
      var blk := f.blocks[i];
      assert f.blocks[..i + 1][..i] == f.blocks[..i];
      if blk.number < start || blk.number >= stop {
        continue;
      }
      var prepared := Prepare(blk, o);
      if prepared.None? {
        return false, m;
      }
      m := m[prepared.value.number := prepared.value];
    }
    assert f.blocks[..|f.blocks|] == f.blocks;
    return true, m;
  }

  // ---- the set-level specification ----

  datatype Summary = Summary(compared: nat, different: nat, missingInCurrent: nat, missingInReference: nat) {
    predicate Match() { different == 0 && missingInCurrent == 0 && missingInReference == 0 }
  }

  type Blocks = map<nat, BstreamBlock>

  ghost predicate DifferAt(r: Blocks, c: Blocks, n: nat) {
    n in r && n in c && !SameBlock(r[n], c[n])
  }

  ghost function Both(r: Blocks, c: Blocks): set<nat> { r.Keys * c.Keys }

  ghost function Differing(r: Blocks, c: Blocks): set<nat> { set n | n in r.Keys && DifferAt(r, c, n) }

  ghost function Only(r: Blocks, c: Blocks): set<nat> { r.Keys - c.Keys }

  /** The counts over the block numbers in `d`. */
  ghost function Tally(r: Blocks, c: Blocks, d: set<nat>): Summary {
    Summary(|d * Both(r, c)|, |d * Differing(r, c)|, |d * Only(r, c)|, |d * Only(c, r)|)
  }

  /** The set-level specification: every block either store holds is counted once. */
  ghost function Summarize(r: Blocks, c: Blocks): Summary {
    Summary(|Both(r, c)|, |Differing(r, c)|, |Only(r, c)|, |Only(c, r)|)
  }

  /** The stores agree on the range. */
  ghost predicate Identical(r: Blocks, c: Blocks) {
    r.Keys == c.Keys && forall n :: n in r && n in c ==> SameBlock(r[n], c[n])
  }

  lemma TallyOfAll(r: Blocks, c: Blocks, d: set<nat>)
    requires r.Keys + c.Keys <= d
    ensures Tally(r, c, d) == Summarize(r, c)
  {
    hide SameBlock;
    assert d * Both(r, c) == Both(r, c) && d * Differing(r, c) == Differing(r, c);
    assert d * Only(r, c) == Only(r, c) && d * Only(c, r) == Only(c, r);
  }

  lemma MatchMeansIdentical(r: Blocks, c: Blocks)
    ensures Summarize(r, c).Match() <==> Identical(r, c)
  {
    hide SameBlock;
    if |Differing(r, c)| == 0 {
      forall n | n in r && n in c ensures SameBlock(r[n], c[n]) {
        assert n !in Differing(r, c);
      }
    }
    assert Identical(r, c) ==> Differing(r, c) == {} && Only(r, c) == {} && Only(c, r) == {};
  }

  /** Any count of a difference shows that the stores are not identical. */
  lemma PartialDifferenceShows(r: Blocks, c: Blocks, d: set<nat>)
    requires Identical(r, c)
    ensures Tally(r, c, d).Match()
  {
    hide SameBlock;
    assert Differing(r, c) == {} && Only(r, c) == {} && Only(c, r) == {};
  }

  lemma CountStep(d: set<nat>, s: set<nat>, n: nat)
    requires n !in d
    ensures |(d + {n}) * s| == |d * s| + if n in s then 1 else 0
  {
    assert (d + {n}) * s == if n in s then d * s + {n} else d * s;
  }

  // ---- bundles and the numbers they cover ----

  function BundleOf(n: nat): nat { n - n % BUNDLE_SIZE }

  /** Bundle starts among `files`. */
  ghost function Starts(files: seq<File>): set<nat> {
    if files == [] then {}
    else
      var last := files[|files| - 1];
      Starts(files[..|files| - 1]) + if BundleStart(last).Some? then {BundleStart(last).value} else {}
  }

  /** Numbers of [start, stop) whose bundle is among `starts`. */
  ghost function Covered(starts: set<nat>, start: nat, stop: nat): set<nat> {
    set n: nat | start <= n < stop && BundleOf(n) in starts
  }

  lemma {:induction false} StartsExactly(files: seq<File>, s: nat)
    ensures s in Starts(files) <==> exists f :: f in files && BundleStart(f) == Some(s)
  {
    if files != [] {
      var init, last := files[..|files| - 1], files[|files| - 1];
      StartsExactly(init, s);
      assert files == init + [last];
      if BundleStart(last) == Some(s) { assert last in files; }
      assert forall f :: f in init ==> f in files;
      assert forall f :: f in files ==> f in init || f == last;
    }
  }

  lemma {:induction false} ContentsNumbers(bs: seq<BstreamBlock>, start: nat, stop: nat, o: Side, n: nat)
    requires n in Contents(bs, start, stop, o)
    ensures exists b :: b in bs && b.number == n
  {
    hide Prepared;
    var last := bs[|bs| - 1];
    if last.number == n {
      assert last in bs;
    } else {
      ContentsNumbers(bs[..|bs| - 1], start, stop, o, n);
      var b :| b in bs[..|bs| - 1] && b.number == n;
      assert b in bs;
    }
  }

  lemma BundleHoldsItsOwn(f: File, start: nat, stop: nat, o: Side, n: nat)
    requires InBundle(f) && BundleStart(f).Some? && n in Contents(f.blocks, start, stop, o)
    ensures BundleOf(n) == BundleStart(f).value
  {
    hide Contents;
    ContentsNumbers(f.blocks, start, stop, o, n);
    var b :| b in f.blocks && b.number == n;
    SameHundred(n, BundleStart(f).value);
  }

  lemma SameHundred(n: nat, s: nat)
    requires s % BUNDLE_SIZE == 0
    ensures s <= n < s + BUNDLE_SIZE <==> BundleOf(n) == s
  {
  }

  lemma {:induction false} HeldBlocksAreCovered(files: seq<File>, start: nat, stop: nat, o: Side, n: nat)
    requires WellFormed(files) && n in StoreContents(files, start, stop, o)
    ensures BundleOf(n) in Starts(files)
  {
    hide Contents, BundleOf, BundleStart;
    var init, last := files[..|files| - 1], files[|files| - 1];
    assert last in files && forall f :: f in init ==> f in files;
    if BundleStart(last).Some? && n in Contents(last.blocks, start, stop, o) {
      assert InBundle(last);
      BundleHoldsItsOwn(last, start, stop, o, n);
    } else {
      HeldBlocksAreCovered(init, start, stop, o, n);
    }
  }

  /** Within a bundle's hundred, the store holds what the bundle holds. */
  lemma {:induction false} StoreWithinBundle(files: seq<File>, k: nat, start: nat, stop: nat, o: Side, n: nat)
    requires WellFormed(files) && k < |files|
    requires BundleStart(files[k]).Some? && BundleOf(n) == BundleStart(files[k]).value
    ensures var all, one := StoreContents(files, start, stop, o), Contents(files[k].blocks, start, stop, o);
      (n in all <==> n in one) && (n in one ==> all[n] == one[n])
    decreases |files|
  {
    hide Contents, BundleOf, BundleStart;
    var init, last := files[..|files| - 1], files[|files| - 1];
    assert last in files && forall f :: f in init ==> f in files;
    if k == |init| {
      if n in StoreContents(init, start, stop, o) {
        HeldBlocksAreCovered(init, start, stop, o, n);
        StartsExactly(init, BundleOf(n));
      }
    } else {
      StoreWithinBundle(init, k, start, stop, o, n);
      if BundleStart(last).Some? && n in Contents(last.blocks, start, stop, o) {
        assert InBundle(last);
        BundleHoldsItsOwn(last, start, stop, o, n);
        assert false;
      }
    }
  }

  /** A store without a bundle for `n` does not hold `n`. */
  lemma NoBundleNoBlock(files: seq<File>, start: nat, stop: nat, o: Side, n: nat)
    requires WellFormed(files) && BundleOf(n) !in Starts(files)
    ensures n !in StoreContents(files, start, stop, o)
  {
    if n in StoreContents(files, start, stop, o) {
      HeldBlocksAreCovered(files, start, stop, o, n);
    }
  }

  // ---- bundle names ----

  lemma {:induction false} SameDigits(s: string, t: string)
    requires |s| == |t| && DigitsValue(s).Some? && DigitsValue(s) == DigitsValue(t)
    ensures s == t
  {
    if s != "" {
      var n := |s| - 1;
      var a, b := DigitsValue(s[..n]).value, DigitsValue(t[..n]).value;
      var x, y := s[n] as int - '0' as int, t[n] as int - '0' as int;
      assert 10 * a + x == 10 * b + y && 0 <= x < 10 && 0 <= y < 10;
      assert a == b && x == y;
      SameDigits(s[..n], t[..n]);
      assert s == s[..n] + [s[n]] && t == t[..n] + [t[n]];
    }
  }

  /** Ten-digit names with the same number are the same name. */
  lemma SameStartSameName(f: File, g: File)
    requires InBundle(f) && InBundle(g) && BundleStart(f).Some? && BundleStart(f) == BundleStart(g)
    ensures f.name == g.name
  {
    SameDigits(f.name, g.name);
  }

  // ---- the two walks over bundles ----

  ghost predicate AgreeOn(m: Blocks, all: Blocks, d: set<nat>) {
    forall n :: n in d ==> (n in m <==> n in all) && (n in m ==> m[n] == all[n])
  }

  function Max(a: nat, b: nat): nat { if a < b then b else a }

  function Min(a: nat, b: nat): nat { if a < b then a else b }

  ghost predicate From(first: nat, n: nat) { first <= n }

  ghost function Numbers(first: nat, end: nat): set<nat> { set n: nat | From(first, n) && n < end }

  /** The numbers of [start, stop) in the hundred that starts at `s`. */
  ghost function Span(s: nat, start: nat, stop: nat): set<nat> {
    Numbers(Max(start, s), Min(stop, s + BUNDLE_SIZE))
  }

  function Plus(t: Summary, u: Summary): Summary {
    Summary(t.compared + u.compared, t.different + u.different,
            t.missingInCurrent + u.missingInCurrent, t.missingInReference + u.missingInReference)
  }

  lemma CountJoin(all: set<nat>, d: set<nat>, some: set<nat>, e: set<nat>)
    requires d !! e && forall n :: n in e ==> (n in some <==> n in all)
    ensures |(d + e) * all| == |d * all| + |e * some|
  {
    assert (d + e) * all == d * all + e * some;
  }

  lemma AgreeingSets(R: Blocks, C: Blocks, r: Blocks, c: Blocks, n: nat)
    requires (n in r <==> n in R) && (n in r ==> r[n] == R[n])
    requires (n in c <==> n in C) && (n in c ==> c[n] == C[n])
    ensures n in Both(r, c) <==> n in Both(R, C)
    ensures n in Differing(r, c) <==> n in Differing(R, C)
    ensures n in Only(r, c) <==> n in Only(R, C)
    ensures n in Only(c, r) <==> n in Only(C, R)
  {
    hide SameBlock;
  }

  lemma TallyJoin(R: Blocks, C: Blocks, d: set<nat>, r: Blocks, c: Blocks, e: set<nat>)
    requires d !! e && AgreeOn(r, R, e) && AgreeOn(c, C, e)
    ensures Tally(R, C, d + e) == Plus(Tally(R, C, d), Tally(r, c, e))
  {
    hide Both, Differing, Only;
    forall n | n in e
      ensures n in Both(r, c) <==> n in Both(R, C)
      ensures n in Differing(r, c) <==> n in Differing(R, C)
      ensures n in Only(r, c) <==> n in Only(R, C)
      ensures n in Only(c, r) <==> n in Only(C, R)
    {
      AgreeingSets(R, C, r, c, n);
    }
    hide AgreeOn;
    CountJoin(Both(R, C), d, Both(r, c), e);
    CountJoin(Differing(R, C), d, Differing(r, c), e);
    CountJoin(Only(R, C), d, Only(r, c), e);
    CountJoin(Only(C, R), d, Only(c, r), e);
  }

  lemma CoveredStep(starts: set<nat>, s: nat, start: nat, stop: nat)
    requires s % BUNDLE_SIZE == 0
    ensures Covered(starts + {s}, start, stop) == Covered(starts, start, stop) + Span(s, start, stop)
    ensures s !in starts ==> Covered(starts, start, stop) !! Span(s, start, stop)
  {
    forall n: nat ensures s <= n < s + BUNDLE_SIZE <==> BundleOf(n) == s {
      SameHundred(n, s);
    }
  }

  lemma StartsStep(files: seq<File>, i: nat)
    requires WellFormed(files) && i < |files| && BundleStart(files[i]).Some?
    ensures Starts(files[..i + 1]) == Starts(files[..i]) + {BundleStart(files[i]).value}
    ensures BundleStart(files[i]).value !in Starts(files[..i])
  {
    hide BundleStart;
    assert files[..i + 1][..i] == files[..i];
    StartsExactly(files[..i], BundleStart(files[i]).value);
  }

  lemma NotABundle(files: seq<File>, i: nat)
    requires i < |files| && BundleStart(files[i]).None?
    ensures Starts(files[..i + 1]) == Starts(files[..i])
  {
    hide BundleStart;
    assert files[..i + 1][..i] == files[..i];
  }

  /** Bundles from the first past the range on cover nothing of it. */
  lemma RestCoversNothing(files: seq<File>, i: nat, start: nat, stop: nat)
    requires WellFormed(files) && i < |files|
    requires BundleStart(files[i]).Some? && BundleStart(files[i]).value >= stop
    ensures Covered(Starts(files), start, stop) == Covered(Starts(files[..i]), start, stop)
    ensures forall f :: f in files && f !in files[..i] && BundleStart(f).Some? ==> BundleStart(f).value >= stop
  {
    hide BundleStart;
    forall n: nat | start <= n < stop
      ensures BundleOf(n) in Starts(files) <==> BundleOf(n) in Starts(files[..i])
    {
      StartsExactly(files, BundleOf(n));
      StartsExactly(files[..i], BundleOf(n));
      assert forall f :: f in files[..i] ==> f in files;
    }
  }

  predicate FileReadable(f: File, start: nat, stop: nat, o: Side) {
    BundleStart(f).Some? ==> Readable(f.blocks, start, stop, o)
  }

  predicate AllReadable(files: seq<File>, start: nat, stop: nat, o: Side) {
    forall f :: f in files ==> FileReadable(f, start, stop, o)
  }

  /** A bundle outside the range has nothing to read. */
  lemma OutsideIsReadable(f: File, start: nat, stop: nat, o: Side)
    requires InBundle(f) && BundleStart(f).Some?
    requires BundleStart(f).value >= stop || BundleStart(f).value + BUNDLE_SIZE <= start
    ensures FileReadable(f, start, stop, o)
  {
    hide Prepared, BundleStart;
    forall i | 0 <= i < |f.blocks| ensures !(start <= f.blocks[i].number < stop) {
      assert f.blocks[i] in f.blocks;
    }
  }

  /** One bundle's map is the store's contents on the bundle's hundred. */
  lemma BundleAgrees(files: seq<File>, k: nat, start: nat, stop: nat, o: Side)
    requires WellFormed(files) && k < |files| && BundleStart(files[k]).Some?
    ensures AgreeOn(Contents(files[k].blocks, start, stop, o), StoreContents(files, start, stop, o),
                    Span(BundleStart(files[k]).value, start, stop))
  {
    var s := BundleStart(files[k]).value;
    assert InBundle(files[k]);
    hide Contents, StoreContents, BundleStart, WellFormed;
    forall n | n in Span(s, start, stop)
      ensures var all, one := StoreContents(files, start, stop, o), Contents(files[k].blocks, start, stop, o);
        (n in all <==> n in one) && (n in one ==> all[n] == one[n])
    {
      SameHundred(n, s);
      StoreWithinBundle(files, k, start, stop, o, n);
    }
  }

  /** A store without the bundle has nothing in its hundred. */
  lemma AbsentAgrees(files: seq<File>, s: nat, start: nat, stop: nat, o: Side)
    requires WellFormed(files) && s % BUNDLE_SIZE == 0 && s !in Starts(files)
    ensures AgreeOn(map[], StoreContents(files, start, stop, o), Span(s, start, stop))
  {
    hide StoreContents, WellFormed;
    forall n | n in Span(s, start, stop) ensures n !in StoreContents(files, start, stop, o) {
      SameHundred(n, s);
      NoBundleNoBlock(files, start, stop, o, n);
    }
  }

  /** What one more number adds to the counts. */
  ghost function One(r: Blocks, c: Blocks, n: nat): Summary {
    Summary(if n in r && n in c then 1 else 0, if DifferAt(r, c, n) then 1 else 0,
            if n in r && n !in c then 1 else 0, if n in c && n !in r then 1 else 0)
  }

  lemma OneCounts(r: Blocks, c: Blocks, n: nat)
    ensures One(r, c, n) == Summary(
      if n in Both(r, c) then 1 else 0, if n in Differing(r, c) then 1 else 0,
      if n in Only(r, c) then 1 else 0, if n in Only(c, r) then 1 else 0)
  {
    hide SameBlock;
  }

  lemma NumbersStep(r: Blocks, c: Blocks, first: nat, k: nat)
    requires first <= k
    ensures Tally(r, c, Numbers(first, k + 1)) == Plus(Tally(r, c, Numbers(first, k)), One(r, c, k))
  {
    OneCounts(r, c, k);
    var d := Numbers(first, k);
    assert Numbers(first, k + 1) == d + {k} && k !in d;
    hide One, Both, Differing, Only, Numbers;
    CountStep(d, Both(r, c), k);
    CountStep(d, Differing(r, c), k);
    CountStep(d, Only(r, c), k);
    CountStep(d, Only(c, r), k);
  }

  lemma NoNumbers(r: Blocks, c: Blocks, first: nat, end: nat)
    requires end <= first
    ensures Tally(r, c, Numbers(first, end)) == Summary(0, 0, 0, 0) && Numbers(first, end) == {}
  {
    assert Numbers(first, end) == {};
    hide Both, Differing, Only;
  }

  /** Both switches of the comparison: counts one number, telling whether both hold it and differ. */
  method CompareNumber(refMap: Blocks, curMap: Blocks, n: nat, before: Summary)
    returns (after: Summary, differs: bool)
    ensures after == Plus(before, One(refMap, curMap, n)) && (differs <==> DifferAt(refMap, curMap, n))
    ensures after.different == before.different + if differs then 1 else 0
  {
    hide SameBlock;
    after, differs := before, false;
    if n !in refMap && n !in curMap {
      return;
    } else if n !in refMap {
      after := after.(missingInReference := after.missingInReference + 1);
    } else if n !in curMap {
      after := after.(missingInCurrent := after.missingInCurrent + 1);
    } else {
      after := after.(compared := after.compared + 1);
      var diffs := CompareSingleBlock(refMap[n], curMap[n]);
      if diffs == [] {
        return;
      }
      after := after.(different := after.different + 1);
      differs := true;
    }
  }

  /** The counts of [first, k), one number after the other. */
  ghost function Counted(r: Blocks, c: Blocks, first: nat, k: nat): Summary {
    if k <= first then Summary(0, 0, 0, 0) else Plus(Counted(r, c, first, k - 1), One(r, c, k - 1))
  }

  lemma {:induction false} CountedIsTally(r: Blocks, c: Blocks, first: nat, k: nat)
    ensures Counted(r, c, first, k) == Tally(r, c, Numbers(first, k))
  {
    hide Tally, One, Numbers;
    if k <= first {
      NoNumbers(r, c, first, k);
    } else {
      CountedIsTally(r, c, first, k - 1);
      NumbersStep(r, c, first, k - 1);
    }
  }

  lemma CountOneMore(before: Summary, r: Blocks, c: Blocks, first: nat, k: nat)
    requires first <= k
    ensures Plus(Plus(before, Counted(r, c, first, k)), One(r, c, k)) == Plus(before, Counted(r, c, first, k + 1))
  {
    hide One;
  }

  lemma CountNone(before: Summary, r: Blocks, c: Blocks, first: nat)
    ensures Plus(before, Counted(r, c, first, first)) == before
  {
  }

  /** Compares one bundle's numbers [first, end); stops at the first difference when asked to. */
  method CompareBundle(refMap: Blocks, curMap: Blocks, first: nat, end: nat, stopOnFirst: bool, before: Summary)
    returns (after: Summary, stopped: bool, ghost next: nat)
    ensures after == Plus(before, Counted(refMap, curMap, first, next))
    ensures !stopped ==> next == Max(first, end)
    ensures stopped ==> stopOnFirst && first <= next <= end && after.different == before.different + 1
    ensures stopOnFirst && !stopped ==> after.different == before.different
  {
    CountNone(before, refMap, curMap, first);
    hide One, DifferAt, Plus, Counted;
    after, stopped, next := before, false, first;
    var blockNum := first;
    while blockNum < end
      invariant next == blockNum && first <= blockNum <= Max(first, end)
      invariant after == Plus(before, Counted(refMap, curMap, first, blockNum))
      invariant stopOnFirst ==> after.different == before.different
    {
      CountOneMore(before, refMap, curMap, first, blockNum);
      var differs;
      after, differs := CompareNumber(refMap, curMap, blockNum, after);
      blockNum := blockNum + 1;
      next := blockNum;
      if differs && stopOnFirst {
        stopped := true;
        return;
      }
    }
  }

  lemma OnlyInCurrent(t: Summary, c: Blocks, n: nat)
    ensures Plus(t, One(map[], c, n)) == if n in c then t.(missingInReference := t.missingInReference + 1) else t
  {
    hide SameBlock;
  }

  /** Counts the blocks of a bundle that only the current store has. */
  method CountCurrentOnly(curMap: Blocks, first: nat, end: nat, stopOnFirst: bool, before: Summary)
    returns (after: Summary, stopped: bool, ghost next: nat)
    ensures after == Plus(before, Counted(map[], curMap, first, next))
    ensures !stopped ==> next == Max(first, end)
    ensures stopped ==>
      stopOnFirst && first <= next <= end && after.missingInReference == before.missingInReference + 1
    ensures stopOnFirst && !stopped ==> after == before
    ensures after.different == before.different
  {
    CountNone(before, map[], curMap, first);
    hide One, DifferAt, Plus, Counted;
    after, stopped, next := before, false, first;
    var blockNum := first;
    while blockNum < end
      invariant next == blockNum && first <= blockNum <= Max(first, end)
      invariant after == Plus(before, Counted(map[], curMap, first, blockNum))
      invariant (stopOnFirst ==> after == before) && after.different == before.different
    {
      CountOneMore(before, map[], curMap, first, blockNum);
      OnlyInCurrent(after, curMap, blockNum);
      if blockNum !in curMap {
        blockNum := blockNum + 1;
        next := blockNum;
        continue;
      }
      after := after.(missingInReference := after.missingInReference + 1);
      blockNum := blockNum + 1;
      next := blockNum;
      if stopOnFirst {
        stopped := true;
        return;
      }
    }
  }

  /** Numbers of [start, stop) covered by the first `i` files. */
  ghost function CoveredBy(files: seq<File>, i: nat, start: nat, stop: nat): set<nat>
    requires i <= |files|
  {
    Covered(Starts(files[..i]), start, stop)
  }

  lemma BundleCounts(R: Blocks, C: Blocks, d: set<nat>, r: Blocks, c: Blocks, first: nat, next: nat)
    requires d !! Numbers(first, next) && AgreeOn(r, R, Numbers(first, next)) && AgreeOn(c, C, Numbers(first, next))
    ensures Plus(Tally(R, C, d), Counted(r, c, first, next)) == Tally(R, C, d + Numbers(first, next))
  {
    hide Tally, Numbers, AgreeOn;
    CountedIsTally(r, c, first, next);
    TallyJoin(R, C, d, r, c, Numbers(first, next));
  }

  /** Counting part of a bundle's hundred, after `d` was counted. */
  lemma HundredCounts(R: Blocks, C: Blocks, d: set<nat>, r: Blocks, c: Blocks, s: nat, start: nat, stop: nat, next: nat)
    requires d !! Span(s, start, stop) && AgreeOn(r, R, Span(s, start, stop)) && AgreeOn(c, C, Span(s, start, stop))
    requires next <= Min(stop, s + BUNDLE_SIZE) || next == Max(Max(start, s), Min(stop, s + BUNDLE_SIZE))
    ensures Plus(Tally(R, C, d), Counted(r, c, Max(start, s), next)) == Tally(R, C, d + Numbers(Max(start, s), next))
  {
    hide Tally;
    assert Numbers(Max(start, s), next) <= Span(s, start, stop);
    BundleCounts(R, C, d, r, c, Max(start, s), next);
  }

  lemma CoveredByNext(files: seq<File>, i: nat, start: nat, stop: nat)
    requires WellFormed(files) && i < |files|
    ensures var s := BundleStart(files[i]);
      && CoveredBy(files, i + 1, start, stop)
         == CoveredBy(files, i, start, stop) + (if s.Some? then Span(s.value, start, stop) else {})
      && (s.Some? ==> CoveredBy(files, i, start, stop) !! Span(s.value, start, stop))
  {
    if BundleStart(files[i]).Some? {
      StartsStep(files, i);
      assert InBundle(files[i]);
      CoveredStep(Starts(files[..i]), BundleStart(files[i]).value, start, stop);
    } else {
      NotABundle(files, i);
    }
  }

  predicate Overlaps(s: nat, start: nat, stop: nat) { s < stop && s + BUNDLE_SIZE > start }

  lemma NoOverlapNoSpan(s: nat, start: nat, stop: nat)
    requires !Overlaps(s, start, stop)
    ensures Span(s, start, stop) == {}
  {
  }

  lemma CoveredByAll(files: seq<File>, start: nat, stop: nat)
    ensures CoveredBy(files, |files|, start, stop) == Covered(Starts(files), start, stop)
    ensures CoveredBy(files, 0, start, stop) == {}
  {
    assert files[..|files|] == files;
  }

  /** A bundle's name determines the bundle. */
  lemma SameNameSameFile(files: seq<File>, i: nat, j: nat)
    requires WellFormed(files) && i < |files| && j < |files| && files[i].name == files[j].name
    requires BundleStart(files[i]).Some?
    ensures i == j
  {
  }

  method FindFile(files: seq<File>, name: string) returns (k: nat)
    ensures k <= |files| && (k < |files| ==> files[k].name == name)
    ensures k == |files| ==> forall f :: f in files ==> f.name != name
  {
    k := 0;
    while k < |files|
      invariant k <= |files| && forall j :: 0 <= j < k ==> files[j].name != name
    {
      if files[k].name == name {
        return;
      }
      k := k + 1;
    }
  }

  /** The current store's part of a reference bundle: empty when it has no file of that name. */
  method ReadIfPresent(cur: seq<File>, f: File, start: uint64, stop: uint64, o: Side)
    returns (ok: bool, m: Blocks)
    requires WellFormed(cur) && InBundle(f) && BundleStart(f).Some?
    ensures ok ==> AgreeOn(m, StoreContents(cur, start, stop, o), Span(BundleStart(f).value, start, stop))
    ensures ok ==> forall g :: g in cur && g.name == f.name ==> FileReadable(g, start, stop, o)
    ensures !ok ==> !AllReadable(cur, start, stop, o)
  {
    ghost var s := BundleStart(f).value;
    hide StoreContents, Contents, AgreeOn, Span, Readable;
    var k := FindFile(cur, f.name);
    if k == |cur| {
      forall g | g in cur && BundleStart(g) == Some(s) ensures false {
        SameStartSameName(f, g);
      }
      StartsExactly(cur, s);
      AbsentAgrees(cur, s, start, stop, o);
      return true, map[];
    }
    assert cur[k] in cur && BundleStart(cur[k]) == Some(s);
    ok, m := ReadMergedBundle(cur[k], start, stop, o);
    if ok {
      BundleAgrees(cur, k, start, stop, o);
      forall g | g in cur && g.name == f.name ensures g == cur[k] {
        var j :| 0 <= j < |cur| && cur[j] == g;
        SameNameSameFile(cur, k, j);
      }
    }
  }

  /** Every bundle of the range is marked, and only bundles are. */
  ghost predicate Marks(visited: set<string>, files: seq<File>, start: nat, stop: nat) {
    && (forall f :: f in files && BundleStart(f).Some? && Overlaps(BundleStart(f).value, start, stop) ==>
          f.name in visited)
    && forall name :: name in visited ==> exists f :: f in files && BundleStart(f).Some? && f.name == name
  }

  lemma MarksOne(visited: set<string>, files: seq<File>, i: nat, start: nat, stop: nat)
    requires i < |files| && Marks(visited, files[..i], start, stop)
    ensures BundleStart(files[i]).Some? ==> Marks(visited + {files[i].name}, files[..i + 1], start, stop)
    ensures BundleStart(files[i]).None? || !Overlaps(BundleStart(files[i]).value, start, stop)
      ==> Marks(visited, files[..i + 1], start, stop)
  {
    hide BundleStart, Overlaps;
    assert files[..i + 1] == files[..i] + [files[i]];
    forall f ensures f in files[..i + 1] <==> f in files[..i] || f == files[i] {
      if f == files[i] { assert files[..i + 1][i] == f; }
    }
  }

  lemma MarksRest(visited: set<string>, files: seq<File>, i: nat, start: nat, stop: nat)
    requires i <= |files| && Marks(visited, files[..i], start, stop)
    requires forall f :: f in files && f !in files[..i] && BundleStart(f).Some? ==> BundleStart(f).value >= stop
    ensures Marks(visited, files, start, stop)
  {
    hide BundleStart;
    assert forall f :: f in files[..i] ==> f in files;
  }

  lemma ReadableNext(files: seq<File>, i: nat, start: nat, stop: nat, o: Side)
    requires i < |files| && AllReadable(files[..i], start, stop, o) && FileReadable(files[i], start, stop, o)
    ensures AllReadable(files[..i + 1], start, stop, o)
  {
    hide FileReadable;
    assert files[..i + 1] == files[..i] + [files[i]];
  }

  lemma ReadableRest(files: seq<File>, i: nat, start: nat, stop: nat, o: Side)
    requires WellFormed(files) && i <= |files| && AllReadable(files[..i], start, stop, o)
    requires forall f :: f in files && f !in files[..i] && BundleStart(f).Some? ==> BundleStart(f).value >= stop
    ensures AllReadable(files, start, stop, o)
  {
    forall f | f in files ensures FileReadable(f, start, stop, o) {
      if f !in files[..i] && BundleStart(f).Some? {
        assert InBundle(f);
        hide FileReadable, BundleStart;
        OutsideIsReadable(f, start, stop, o);
      }
    }
  }

  /** One run of the tool: two stores, a range, how each side is prepared, and when to stop. */
  datatype Run = Run(ref: seq<File>, cur: seq<File>, start: uint64, stop: uint64,
                     refSide: Side, curSide: Side, stopOnFirst: bool) {

    ghost predicate Valid() { WellFormed(ref) && WellFormed(cur) }

    ghost function Ref(): Blocks { StoreContents(ref, start, stop, refSide) }

    ghost function Cur(): Blocks { StoreContents(cur, start, stop, curSide) }

    ghost function Count(d: set<nat>): Summary { Tally(Ref(), Cur(), d) }

    /** Numbers of the range that the first `i` reference bundles cover. */
    ghost function SeenBy(i: nat): set<nat>
      requires i <= |ref|
    {
      CoveredBy(ref, i, start, stop)
    }

    ghost predicate AllRead() { AllReadable(ref, start, stop, refSide) && AllReadable(cur, start, stop, curSide) }

    ghost predicate CurrentRead(name: string) {
      forall g :: g in cur && g.name == name ==> FileReadable(g, start, stop, curSide)
    }
  }

  /** What comparing part of one reference bundle adds, and what all of it covers. */
  lemma BundleOfRun(run: Run, i: nat, refMap: Blocks, curMap: Blocks, s: nat, next: nat)
    requires run.Valid() && i < |run.ref| && BundleStart(run.ref[i]) == Some(s)
    requires refMap == Contents(run.ref[i].blocks, run.start, run.stop, run.refSide)
    requires AgreeOn(curMap, run.Cur(), Span(s, run.start, run.stop))
    requires next <= Min(run.stop, s + BUNDLE_SIZE) || next == Max(Max(run.start, s), Min(run.stop, s + BUNDLE_SIZE))
    ensures var first, end := Max(run.start, s), Min(run.stop, s + BUNDLE_SIZE);
      && Plus(run.Count(run.SeenBy(i)), Counted(refMap, curMap, first, next))
         == run.Count(run.SeenBy(i) + Numbers(first, next))
      && (next == Max(first, end) ==> run.SeenBy(i) + Numbers(first, next) == run.SeenBy(i + 1))
  {
    CoveredByNext(run.ref, i, run.start, run.stop);
    assert Span(s, run.start, run.stop)
        == Numbers(Max(run.start, s), Max(Max(run.start, s), Min(run.stop, s + BUNDLE_SIZE)));
    hide Tally, StoreContents, Contents, AgreeOn, Span, Numbers, CoveredBy, Counted, Plus, BundleStart;
    BundleAgrees(run.ref, i, run.start, run.stop, run.refSide);
    HundredCounts(run.Ref(), run.Cur(), run.SeenBy(i), refMap, curMap, s, run.start, run.stop, next);
  }

  /** The reference walk's work on one bundle of the range. */
  method CompareFile(run: Run, i: nat, before: Summary)
    returns (ok: bool, stopped: bool, after: Summary, ghost seen: set<nat>)
    requires run.Valid() && i < |run.ref| && BundleStart(run.ref[i]).Some?
    requires before == run.Count(run.SeenBy(i))
    ensures ok ==> after == run.Count(seen)
    ensures ok ==> FileReadable(run.ref[i], run.start, run.stop, run.refSide) && run.CurrentRead(run.ref[i].name)
    ensures ok && !stopped ==> seen == run.SeenBy(i + 1)
    ensures ok && stopped ==> run.stopOnFirst && after.different == before.different + 1
    ensures ok && run.stopOnFirst && !stopped ==> after.different == before.different
    ensures !ok ==> !run.AllRead()
  {
    var f := run.ref[i];
    var s := BundleStart(f).value;
    var first, end := Max(run.start, s), Min(run.stop, s + BUNDLE_SIZE);
    assert f in run.ref && InBundle(f);
    hide Run.Count, Run.SeenBy, Run.Cur, StoreContents, Contents, AgreeOn;
    hide Span, Numbers, Counted, Plus, BundleStart, Readable;
    after, stopped, seen := before, false, {};
    var refMap, curMap;
    ok, refMap := ReadMergedBundle(f, run.start, run.stop, run.refSide);
    if !ok {
      return;
    }
    ok, curMap := ReadIfPresent(run.cur, f, run.start, run.stop, run.curSide);
    if !ok {
      return;
    }
    ghost var next;
    after, stopped, next := CompareBundle(refMap, curMap, first, end, run.stopOnFirst, before);
    BundleOfRun(run, i, refMap, curMap, s, next);
    seen := run.SeenBy(i) + Numbers(first, next);
  }

  /** How far the reference walk has come. */
  ghost predicate Walked(run: Run, i: nat, visited: set<string>)
    requires i <= |run.ref|
  {
    && Marks(visited, run.ref[..i], run.start, run.stop)
    && AllReadable(run.ref[..i], run.start, run.stop, run.refSide)
    && forall name :: name in visited ==> run.CurrentRead(name)
  }

  lemma NothingWalked(run: Run)
    ensures Walked(run, 0, {}) && run.Count(run.SeenBy(0)) == Summary(0, 0, 0, 0)
  {
    CoveredByAll(run.ref, run.start, run.stop);
    NothingCounted(run.Ref(), run.Cur());
  }

  /** A file that is no bundle, or ends before the range, is passed over. */
  lemma WalkPast(run: Run, i: nat, visited: set<string>)
    requires run.Valid() && i < |run.ref| && Walked(run, i, visited)
    requires var s := BundleStart(run.ref[i]); s.None? || s.value + BUNDLE_SIZE <= run.start
    ensures Walked(run, i + 1, visited) && run.SeenBy(i + 1) == run.SeenBy(i)
  {
    var f := run.ref[i];
    CoveredByNext(run.ref, i, run.start, run.stop);
    if BundleStart(f).Some? {
      NoOverlapNoSpan(BundleStart(f).value, run.start, run.stop);
      assert f in run.ref && InBundle(f);
      hide Readable;
      OutsideIsReadable(f, run.start, run.stop, run.refSide);
    }
    hide Span, CoveredBy, BundleStart, FileReadable, Marks;
    MarksOne(visited, run.ref, i, run.start, run.stop);
    ReadableNext(run.ref, i, run.start, run.stop, run.refSide);
  }

  lemma WalkOn(run: Run, i: nat, visited: set<string>)
    requires i < |run.ref| && Walked(run, i, visited) && BundleStart(run.ref[i]).Some?
    requires FileReadable(run.ref[i], run.start, run.stop, run.refSide) && run.CurrentRead(run.ref[i].name)
    ensures Walked(run, i + 1, visited + {run.ref[i].name})
  {
    hide Run.CurrentRead, Marks, FileReadable, AllReadable, BundleStart;
    MarksOne(visited, run.ref, i, run.start, run.stop);
    ReadableNext(run.ref, i, run.start, run.stop, run.refSide);
  }

  /** Stopping at the first bundle past the range misses nothing. */
  lemma WalkStops(run: Run, i: nat, visited: set<string>)
    requires run.Valid() && i < |run.ref| && Walked(run, i, visited)
    requires BundleStart(run.ref[i]).Some? && BundleStart(run.ref[i]).value >= run.stop
    ensures Walked(run, |run.ref|, visited) && run.SeenBy(i) == run.SeenBy(|run.ref|)
  {
    hide Marks, AllReadable, Starts, BundleStart;
    RestCoversNothing(run.ref, i, run.start, run.stop);
    MarksRest(visited, run.ref, i, run.start, run.stop);
    ReadableRest(run.ref, i, run.start, run.stop, run.refSide);
    assert run.ref[..|run.ref|] == run.ref;
  }

  /** The walk over the reference store's bundles. */
  method WalkReference(run: Run)
    returns (ok: bool, stopped: bool, t: Summary, visited: set<string>, ghost seen: set<nat>)
    requires run.Valid()
    ensures ok ==> t == run.Count(seen)
    ensures ok && !stopped ==> seen == run.SeenBy(|run.ref|) && Walked(run, |run.ref|, visited)
    ensures ok && stopped ==> run.stopOnFirst && t.different == 1
    ensures ok && run.stopOnFirst && !stopped ==> t.different == 0
    ensures !ok ==> !run.AllRead()
  {
    NothingWalked(run);
    ok, stopped, t, visited, seen := true, false, Summary(0, 0, 0, 0), {}, run.SeenBy(0);
    hide Run.Count, Run.SeenBy, Run.Valid, Run.AllRead, Run.CurrentRead, Walked, BundleStart, FileReadable;
    var i := 0;
    while i < |run.ref|
      invariant i <= |run.ref| && ok && !stopped && Walked(run, i, visited)
      invariant t == run.Count(seen) && seen == run.SeenBy(i) && (run.stopOnFirst ==> t.different == 0)
    {
      var fileStart := BundleStart(run.ref[i]);
      if fileStart.None? {
        WalkPast(run, i, visited);
        i := i + 1;
        continue;
      }
      if fileStart.value >= run.stop {
        WalkStops(run, i, visited);
        return;
      }
      if fileStart.value + BUNDLE_SIZE <= run.start {
        WalkPast(run, i, visited);
        i := i + 1;
        continue;
      }
      ok, stopped, t, seen := CompareFile(run, i, t);
      if !ok || stopped {
        return;
      }
      WalkOn(run, i, visited);
      visited := visited + {run.ref[i].name};
      i := i + 1;
    }
  }

  lemma NothingCounted(R: Blocks, C: Blocks)
    ensures Tally(R, C, {}) == Summary(0, 0, 0, 0)
  {
    hide Both, Differing, Only;
    assert forall s: set<nat> :: {} * s == {};
  }

  /** Numbers of the range covered by a reference bundle or one of the first `j` current ones. */
  ghost function SeenByBoth(run: Run, j: nat): set<nat>
    requires j <= |run.cur|
  {
    Covered(Starts(run.ref) + Starts(run.cur[..j]), run.start, run.stop)
  }

  ghost predicate WalkedBoth(run: Run, j: nat, visited: set<string>)
    requires j <= |run.cur|
  {
    && Walked(run, |run.ref|, visited)
    && AllReadable(run.cur[..j], run.start, run.stop, run.curSide)
  }

  lemma BetweenWalks(run: Run, visited: set<string>)
    requires Walked(run, |run.ref|, visited)
    ensures WalkedBoth(run, 0, visited) && SeenByBoth(run, 0) == run.SeenBy(|run.ref|)
  {
    CoveredByAll(run.ref, run.start, run.stop);
    assert Starts(run.ref) + Starts(run.cur[..0]) == Starts(run.ref);
  }

  /** A bundle whose name was visited is one of the reference store's; no other overlapping bundle is. */
  lemma VisitedMeansShared(run: Run, j: nat, visited: set<string>)
    requires run.Valid() && j < |run.cur| && Walked(run, |run.ref|, visited)
    ensures var s := BundleStart(run.cur[j]);
      && (run.cur[j].name in visited ==> s.Some? && s.value in Starts(run.ref))
      && (run.cur[j].name !in visited && s.Some? && Overlaps(s.value, run.start, run.stop) ==>
            s.value !in Starts(run.ref))
  {
    var f := run.cur[j];
    var s := BundleStart(f);
    assert f in run.cur && run.ref[..|run.ref|] == run.ref;
    if f.name in visited {
      var g :| g in run.ref && BundleStart(g).Some? && g.name == f.name;
      StartsExactly(run.ref, s.value);
    } else if s.Some? && s.value in Starts(run.ref) {
      StartsExactly(run.ref, s.value);
      var g :| g in run.ref && BundleStart(g) == s;
      assert InBundle(f) && InBundle(g);
      SameStartSameName(f, g);
    }
  }

  lemma BothNext(run: Run, j: nat)
    requires run.Valid() && j < |run.cur|
    ensures var s := BundleStart(run.cur[j]);
      && SeenByBoth(run, j + 1) == SeenByBoth(run, j) + (if s.Some? then Span(s.value, run.start, run.stop) else {})
      && (s.Some? && s.value in Starts(run.ref) ==> SeenByBoth(run, j + 1) == SeenByBoth(run, j))
      && (s.Some? && s.value !in Starts(run.ref) ==> SeenByBoth(run, j) !! Span(s.value, run.start, run.stop))
  {
    var all := Starts(run.ref) + Starts(run.cur[..j]);
    if BundleStart(run.cur[j]).Some? {
      var s := BundleStart(run.cur[j]).value;
      assert run.cur[j] in run.cur && InBundle(run.cur[j]);
      StartsStep(run.cur, j);
      assert Starts(run.ref) + Starts(run.cur[..j + 1]) == all + {s};
      assert s in Starts(run.ref) ==> all + {s} == all;
      hide BundleStart, Starts, Covered, WellFormed;
      CoveredStep(all, s, run.start, run.stop);
    } else {
      NotABundle(run.cur, j);
    }
  }

  /** A file the second walk passes over adds nothing. */
  lemma WalkPastBoth(run: Run, j: nat, visited: set<string>)
    requires run.Valid() && j < |run.cur| && WalkedBoth(run, j, visited)
    requires var s := BundleStart(run.cur[j]);
      run.cur[j].name in visited || s.None? || s.value + BUNDLE_SIZE <= run.start
    ensures WalkedBoth(run, j + 1, visited) && SeenByBoth(run, j + 1) == SeenByBoth(run, j)
  {
    var f := run.cur[j];
    assert f in run.cur && InBundle(f);
    VisitedMeansShared(run, j, visited);
    BothNext(run, j);
    hide SeenByBoth, Readable, Span, BundleStart;
    if f.name in visited {
      assert run.CurrentRead(f.name);
    } else if BundleStart(f).Some? {
      NoOverlapNoSpan(BundleStart(f).value, run.start, run.stop);
      OutsideIsReadable(f, run.start, run.stop, run.curSide);
    }
    hide FileReadable, Walked;
    ReadableNext(run.cur, j, run.start, run.stop, run.curSide);
  }

  lemma WalkBothStops(run: Run, j: nat, visited: set<string>)
    requires run.Valid() && j < |run.cur| && WalkedBoth(run, j, visited)
    requires BundleStart(run.cur[j]).Some? && BundleStart(run.cur[j]).value >= run.stop
    ensures WalkedBoth(run, |run.cur|, visited) && SeenByBoth(run, j) == SeenByBoth(run, |run.cur|)
  {
    hide AllReadable, Starts, BundleStart, Walked;
    RestCoversNothing(run.cur, j, run.start, run.stop);
    ReadableRest(run.cur, j, run.start, run.stop, run.curSide);
    assert run.cur[..|run.cur|] == run.cur;
    forall n: nat | run.start <= n < run.stop
      ensures BundleOf(n) in Starts(run.cur) <==> BundleOf(n) in Starts(run.cur[..j])
    {
      assert n in Covered(Starts(run.cur), run.start, run.stop) <==>
        n in Covered(Starts(run.cur[..j]), run.start, run.stop);
    }
  }

  lemma CurrentOnlyBundle(run: Run, j: nat, curMap: Blocks, s: nat, next: nat)
    requires run.Valid() && j < |run.cur| && BundleStart(run.cur[j]) == Some(s) && s !in Starts(run.ref)
    requires curMap == Contents(run.cur[j].blocks, run.start, run.stop, run.curSide)
    requires next <= Min(run.stop, s + BUNDLE_SIZE) || next == Max(Max(run.start, s), Min(run.stop, s + BUNDLE_SIZE))
    ensures var first, end := Max(run.start, s), Min(run.stop, s + BUNDLE_SIZE);
      && Plus(run.Count(SeenByBoth(run, j)), Counted(map[], curMap, first, next))
         == run.Count(SeenByBoth(run, j) + Numbers(first, next))
      && (next == Max(first, end) ==> SeenByBoth(run, j) + Numbers(first, next) == SeenByBoth(run, j + 1))
  {
    assert Span(s, run.start, run.stop)
        == Numbers(Max(run.start, s), Max(Max(run.start, s), Min(run.stop, s + BUNDLE_SIZE)));
    assert run.cur[j] in run.cur && InBundle(run.cur[j]);
    hide Tally, StoreContents, Contents, AgreeOn, Span, Numbers, SeenByBoth, Counted, Plus, BundleStart, Starts;
    BothNext(run, j);
    AbsentAgrees(run.ref, s, run.start, run.stop, run.refSide);
    BundleAgrees(run.cur, j, run.start, run.stop, run.curSide);
    HundredCounts(run.Ref(), run.Cur(), SeenByBoth(run, j), map[], curMap, s, run.start, run.stop, next);
  }

  lemma WalkOnBoth(run: Run, j: nat, visited: set<string>)
    requires j < |run.cur| && WalkedBoth(run, j, visited) && FileReadable(run.cur[j], run.start, run.stop, run.curSide)
    ensures WalkedBoth(run, j + 1, visited)
  {
    hide Walked, FileReadable, AllReadable;
    ReadableNext(run.cur, j, run.start, run.stop, run.curSide);
  }

  /** The walk over the current store: counts the bundles that only it has. */
  method WalkCurrentOnly(run: Run, visited: set<string>, before: Summary)
    returns (ok: bool, stopped: bool, t: Summary, ghost seen: set<nat>)
    requires run.Valid() && WalkedBoth(run, 0, visited) && before == run.Count(SeenByBoth(run, 0))
    ensures ok ==> t == run.Count(seen)
    ensures ok && !stopped ==> seen == SeenByBoth(run, |run.cur|) && WalkedBoth(run, |run.cur|, visited)
    ensures ok && stopped ==> run.stopOnFirst && t.missingInReference == before.missingInReference + 1
    ensures ok && run.stopOnFirst && !stopped ==> t == before
    ensures t.different == before.different
    ensures !ok ==> !run.AllRead()
  {
    hide Run.Count, Run.Valid, Walked, WalkedBoth, BundleStart, Readable, Contents;
    hide SeenByBoth, Counted, Numbers, Starts, Plus;
    ok, stopped, t, seen := true, false, before, SeenByBoth(run, 0);
    var j := 0;
    while j < |run.cur|
      invariant j <= |run.cur| && ok && !stopped && WalkedBoth(run, j, visited)
      invariant t == run.Count(seen) && seen == SeenByBoth(run, j)
      invariant (run.stopOnFirst ==> t == before) && t.different == before.different
    {
      var f := run.cur[j];
      if f.name in visited {
        WalkPastBoth(run, j, visited);
        j := j + 1;
        continue;
      }
      var fileStart := BundleStart(f);
      if fileStart.None? {
        WalkPastBoth(run, j, visited);
        j := j + 1;
        continue;
      }
      if fileStart.value >= run.stop {
        WalkBothStops(run, j, visited);
        return;
      }
      if fileStart.value + BUNDLE_SIZE <= run.start {
        WalkPastBoth(run, j, visited);
        j := j + 1;
        continue;
      }
      NotShared(run, j, visited);
      ok, stopped, t, seen := CountFile(run, j, t);
      if !ok || stopped {
        return;
      }
      WalkOnBoth(run, j, visited);
      j := j + 1;
    }
  }

  lemma NotShared(run: Run, j: nat, visited: set<string>)
    requires run.Valid() && j < |run.cur| && WalkedBoth(run, j, visited) && run.cur[j].name !in visited
    requires var s := BundleStart(run.cur[j]); s.Some? && Overlaps(s.value, run.start, run.stop)
    ensures BundleStart(run.cur[j]).value !in Starts(run.ref)
  {
    hide Walked, BundleStart;
    VisitedMeansShared(run, j, visited);
  }

  /** The second walk's work on one bundle. */
  method CountFile(run: Run, j: nat, before: Summary)
    returns (ok: bool, stopped: bool, after: Summary, ghost seen: set<nat>)
    requires run.Valid() && j < |run.cur| && BundleStart(run.cur[j]).Some?
    requires BundleStart(run.cur[j]).value !in Starts(run.ref)
    requires before == run.Count(SeenByBoth(run, j))
    ensures ok ==> after == run.Count(seen) && FileReadable(run.cur[j], run.start, run.stop, run.curSide)
    ensures ok && !stopped ==> seen == SeenByBoth(run, j + 1)
    ensures ok && stopped ==> run.stopOnFirst && after.missingInReference == before.missingInReference + 1
    ensures ok && run.stopOnFirst && !stopped ==> after == before
    ensures after.different == before.different
    ensures !ok ==> !run.AllRead()
  {
    var f := run.cur[j];
    var s := BundleStart(f).value;
    assert f in run.cur;
    var first, end := Max(run.start, s), Min(run.stop, s + BUNDLE_SIZE);
    hide Run.Count, Run.Valid, BundleStart, Readable, Contents, SeenByBoth, Counted, Numbers, Starts, Plus;
    after, stopped, seen := before, false, {};
    var curMap;
    ok, curMap := ReadMergedBundle(f, run.start, run.stop, run.curSide);
    if !ok {
      return;
    }
    ghost var next;
    after, stopped, next := CountCurrentOnly(curMap, first, end, run.stopOnFirst, before);
    CurrentOnlyBundle(run, j, curMap, s, next);
    seen := SeenByBoth(run, j) + Numbers(first, next);
  }

  // ---- the whole comparison ----

  /** Once both walks are done, every block was counted once and every bundle was read. */
  lemma BothWalked(run: Run, visited: set<string>)
    requires run.Valid() && WalkedBoth(run, |run.cur|, visited)
    ensures run.AllRead() && run.Count(SeenByBoth(run, |run.cur|)) == Summarize(run.Ref(), run.Cur())
  {
    assert run.ref[..|run.ref|] == run.ref && run.cur[..|run.cur|] == run.cur;
    var d := SeenByBoth(run, |run.cur|);
    forall n | n in run.Ref() ensures n in d {
      HeldBlocksAreCovered(run.ref, run.start, run.stop, run.refSide, n);
    }
    forall n | n in run.Cur() ensures n in d {
      HeldBlocksAreCovered(run.cur, run.start, run.stop, run.curSide, n);
    }
    hide SeenByBoth, Tally, Summarize, StoreContents;
    TallyOfAll(run.Ref(), run.Cur(), d);
  }

  /** Counting a difference among part of the numbers shows that the stores differ. */
  lemma PartialVerdict(run: Run, d: set<nat>)
    requires !run.Count(d).Match()
    ensures !Identical(run.Ref(), run.Cur())
  {
    hide Identical, Tally, StoreContents;
    if Identical(run.Ref(), run.Cur()) {
      PartialDifferenceShows(run.Ref(), run.Cur(), d);
    }
  }

  /**
   The bundled comparison. Unless stopped at the first difference, it succeeds exactly when
   every bundle reads, and then counts every block of the range that either store holds
   once, as the set-level specification does. Stopped or not, the summary says "match"
   exactly when both stores hold the same blocks of the range.
   */
  method CompareMerged(run: Run) returns (ok: bool, stopped: bool, t: Summary)
    requires run.Valid()
    ensures run.AllRead() ==> ok
    ensures ok && !stopped ==> run.AllRead() && t == Summarize(run.Ref(), run.Cur())
    ensures ok ==> (t.Match() <==> Identical(run.Ref(), run.Cur()))
    ensures stopped ==> ok && run.stopOnFirst && !t.Match()
    ensures ok && run.stopOnFirst ==> if stopped then t.different <= 1 else t.different == 0
  {
    hide Run.Count, Run.Valid, Run.Ref, Run.Cur, Run.SeenBy, Run.AllRead;
    hide Walked, WalkedBoth, SeenByBoth, Identical, Summarize;
    var visited;
    ghost var seen;
    ok, stopped, t, visited, seen := WalkReference(run);
    if !ok {
      return false, false, t;
    }
    if !stopped {
      BetweenWalks(run, visited);
      ok, stopped, t, seen := WalkCurrentOnly(run, visited, t);
      if !ok {
        return false, false, t;
      }
    }
    if stopped {
      PartialVerdict(run, seen);
    } else {
      BothWalked(run, visited);
      MatchMeansIdentical(run.Ref(), run.Cur());
    }
  }
}
