/**
 The three walks that normalise a decoded tree in place. Each leaves the tree the pure rewrite
 computes, in whatever order a map's keys are visited.
 */
module JsonWalks {
  import opened Base
  import opened JsonTree
  import opened JsonHeap
  import JsonNormal

  // ---- account ids ----

  /** One turn of the loop over a map: replaces the entry, or rewrites below it. */
  method VisitAccountEntry(node: MapNode, k: string, encode: bytes -> string,
                           ghost now: map<string, Layout>, ghost rest: set<object>) returns (ghost kid: Layout)
    requires node !in rest && EntriesHold(node.entries, now, rest) && k in now && k in node.entries
    requires Region(now[k]) <= rest && Holds(node.entries[k], now[k])
    modifies node, Region(now[k])
    ensures EntriesHold(node.entries, now[k := kid], rest) && node.entries.Keys == old(node.entries.Keys)
    ensures TreeOf(kid) == AccountChild(TreeOf(now[k]), encode)
    decreases now[k], 2
  {
    hide Holds, EntriesHold, TreeOf, AccountChild, AccountIDs;
    var val := node.entries[k];
    var encoded := TryEncodeAccount(val, encode, now[k]);
    AccountChildIs(now[k], encode);
    if encoded.Some? {
      EntrySet(node.entries, now, rest, k, VString(encoded.value));
      node.entries := node.entries[k := VString(encoded.value)];
      kid := Leaf(VString(encoded.value));
    } else {
      OtherEntries(node.entries, now, rest, k);
      kid := NormalizeAccountIDs(val, encode, now[k]);
      EntryRejoins(node.entries, now, rest, k, kid);
    }
  }

  lemma AccountChildIs(kid: Layout, encode: bytes -> string)
    ensures var r := TryEncodeAccountID(TreeOf(kid), encode);
      && (r.Some? ==> AccountChild(TreeOf(kid), encode) == TreeOf(Leaf(VString(r.value))))
      && (r.None? ==> AccountChild(TreeOf(kid), encode) == AccountIDs(TreeOf(kid), encode))
  {
  }

  method VisitAccountElement(items: array<Value>, i: nat, encode: bytes -> string,
                             ghost now: seq<Layout>, ghost rest: set<object>) returns (ghost kid: Layout)
    requires items !in rest && ElementsHold(items[..], now, rest) && i < |now| == items.Length
    requires Region(now[i]) <= rest && Holds(items[i], now[i])
    modifies items, Region(now[i])
    ensures ElementsHold(items[..], now[i := kid], rest)
    ensures TreeOf(kid) == AccountChild(TreeOf(now[i]), encode)
    decreases now[i], 2
  {
    hide Holds, ElementsHold, TreeOf, AccountChild, AccountIDs;
    ghost var was := items[..];
    var val := items[i];
    var encoded := TryEncodeAccount(val, encode, now[i]);
    AccountChildIs(now[i], encode);
    if encoded.Some? {
      ElementSet(was, now, rest, i, VString(encoded.value));
      items[i] := VString(encoded.value);
      assert items[..] == was[i := VString(encoded.value)];
      kid := Leaf(VString(encoded.value));
    } else {
      OtherElements(was, now, rest, i);
      kid := NormalizeAccountIDs(val, encode, now[i]);
      assert items[..] == was;
      ElementRejoins(was, now, rest, i, kid);
    }
  }

  ghost predicate AccountsDone(kids: map<string, Layout>, now: map<string, Layout>, left: set<string>,
      encode: bytes -> string) {
    && now.Keys == kids.Keys
    && forall k :: k in kids ==>
         if k in left then now[k] == kids[k] else TreeOf(now[k]) == AccountChild(TreeOf(kids[k]), encode)
  }

  lemma AccountsStep(kids: map<string, Layout>, now: map<string, Layout>, left: set<string>, k: string, kid: Layout,
      encode: bytes -> string)
    requires AccountsDone(kids, now, left, encode) && k in left && k in kids
    requires TreeOf(kid) == AccountChild(TreeOf(now[k]), encode)
    ensures AccountsDone(kids, now[k := kid], left - {k}, encode)
  {
    hide TreeOf, AccountChild;
  }

  lemma AccountsOfMap(node: MapNode, kids: map<string, Layout>, now: map<string, Layout>, region: set<object>,
      encode: bytes -> string)
    requires AccountsDone(kids, now, {}, encode)
    ensures TreeOf(MapAt(node, now, region)) == AccountIDs(TreeOf(MapAt(node, kids, region)), encode)
  {
  }

  ghost predicate AccountsDoneUpTo(parts: seq<Layout>, now: seq<Layout>, i: nat, encode: bytes -> string) {
    && |now| == |parts|
    && forall j :: 0 <= j < |parts| ==>
         if i <= j then now[j] == parts[j] else TreeOf(now[j]) == AccountChild(TreeOf(parts[j]), encode)
  }

  lemma AccountsStepAt(parts: seq<Layout>, now: seq<Layout>, i: nat, kid: Layout, encode: bytes -> string)
    requires AccountsDoneUpTo(parts, now, i, encode) && i < |parts|
    requires TreeOf(kid) == AccountChild(TreeOf(now[i]), encode)
    ensures AccountsDoneUpTo(parts, now[i := kid], i + 1, encode)
  {
    hide TreeOf, AccountChild;
  }

  lemma AccountsOfArray(items: array<Value>, parts: seq<Layout>, now: seq<Layout>, region: set<object>,
      encode: bytes -> string)
    requires AccountsDoneUpTo(parts, now, |parts|, encode)
    ensures TreeOf(ArrayAt(items, now, region)) == AccountIDs(TreeOf(ArrayAt(items, parts, region)), encode)
  {
  }

  /** Replaces every account-shaped object below `v`, whatever order a map's keys come in. */
  method NormalizeAccountIDs(v: Value, encode: bytes -> string, ghost a: Layout) returns (ghost b: Layout)
    requires Holds(v, a)
    modifies Region(a)
    ensures Holds(v, b) && Region(b) <= Region(a) && TreeOf(b) == AccountIDs(TreeOf(a), encode)
    decreases a, 1
  {
    KindsAgree(v, a);
    match v
    case VMap(node) => b := AccountsInMap(node, encode, a);
    case VArray(items) => b := AccountsInArray(items, encode, a);
    case _ => b := a;
  }

  method AccountsInMap(node: MapNode, encode: bytes -> string, ghost a: Layout) returns (ghost b: Layout)
    requires Holds(VMap(node), a) && a.MapAt?
    modifies Region(a)
    ensures Holds(VMap(node), b) && Region(b) <= Region(a) && TreeOf(b) == AccountIDs(TreeOf(a), encode)
    decreases a, 0
  {
    ghost var kids, region := a.kids, a.region;
    ghost var rest, now := region - {node}, kids;
    MapHolds(node, kids, region);
    var left := node.entries.Keys;
    assert AccountsDone(kids, now, left, encode);
    hide Holds, EntriesHold, TreeOf, AccountChild, AccountIDs;
    while left != {}
      invariant left <= kids.Keys == now.Keys == node.entries.Keys && EntriesHold(node.entries, now, rest)
      invariant AccountsDone(kids, now, left, encode)
      decreases left
    {
      var k :| k in left;
      EntryHolds(node.entries, now, rest, k);
      ghost var kid := VisitAccountEntry(node, k, encode, now, rest);
      AccountsStep(kids, now, left, k, kid, encode);
      now := now[k := kid];
      left := left - {k};
    }
    b := MapAt(node, now, region);
    AccountsOfMap(node, kids, now, region, encode);
    MapHolds(node, now, region);
  }

  method AccountsInArray(items: array<Value>, encode: bytes -> string, ghost a: Layout) returns (ghost b: Layout)
    requires Holds(VArray(items), a) && a.ArrayAt?
    modifies Region(a)
    ensures Holds(VArray(items), b) && Region(b) <= Region(a) && TreeOf(b) == AccountIDs(TreeOf(a), encode)
    decreases a, 0
  {
    ghost var parts, region := a.parts, a.region;
    ghost var rest, now := region - {items}, parts;
    ArrayHolds(items, parts, region);
    assert AccountsDoneUpTo(parts, now, 0, encode) && |parts| == items.Length;
    hide Holds, ElementsHold, TreeOf, AccountChild, AccountIDs;
    for i := 0 to items.Length
      invariant |now| == |parts| == items.Length && ElementsHold(items[..], now, rest)
      invariant AccountsDoneUpTo(parts, now, i, encode)
    {
      ElementHolds(items[..], now, rest, i);
      ghost var kid := VisitAccountElement(items, i, encode, now, rest);
      AccountsStepAt(parts, now, i, kid, encode);
      now := now[i := kid];
    }
    b := ArrayAt(items, now, region);
    AccountsOfArray(items, parts, now, region, encode);
    ArrayHolds(items, now, region);
  }

  // ---- dynamic fields ----

  method DynamicPlaceholder(k: string, val: Value, encode: bytes -> string, ghost a: Layout) returns (r: Option<string>)
    requires Holds(val, a)
    ensures r == DynamicFieldPlaceholder(k, TreeOf(a), encode)
  {
    KindsAgree(val, a);
    hide Holds, TreeOf, TryEncodeStrkey;
    if k == "SeqNum" || k == "BumpTo" || k == "OfferId" {
      return if val.VNumber? then PlaceholderOf(k) else None;
    } else if k == "TransactionHash" {
      if !val.VArray? {
        return None;
      }
      var numbers := AreNumbers(val.items, a);
      return if numbers then PlaceholderOf(k) else None;
    } else if k == "ContractId" {
      r := TryEncodeKey(val, encode, a);
      return;
    }
    return None;
  }

  method VisitDynamicEntry(node: MapNode, k: string, encode: bytes -> string,
                           ghost now: map<string, Layout>, ghost rest: set<object>) returns (ghost kid: Layout)
    requires node !in rest && EntriesHold(node.entries, now, rest) && k in now && k in node.entries
    requires Region(now[k]) <= rest && Holds(node.entries[k], now[k])
    modifies node, Region(now[k])
    ensures EntriesHold(node.entries, now[k := kid], rest) && node.entries.Keys == old(node.entries.Keys)
    ensures TreeOf(kid) == DynamicChild(k, TreeOf(now[k]), encode)
    decreases now[k], 2
  {
    hide Holds, EntriesHold, TreeOf, DynamicChild, DynamicFields;
    var val := node.entries[k];
    var placeholder := DynamicPlaceholder(k, val, encode, now[k]);
    DynamicChildIs(k, now[k], encode);
    if placeholder.Some? {
      EntrySet(node.entries, now, rest, k, VString(placeholder.value));
      node.entries := node.entries[k := VString(placeholder.value)];
      kid := Leaf(VString(placeholder.value));
    } else {
      OtherEntries(node.entries, now, rest, k);
      kid := NormalizeDynamicFields(val, encode, now[k]);
      EntryRejoins(node.entries, now, rest, k, kid);
    }
  }

  lemma DynamicChildIs(k: string, kid: Layout, encode: bytes -> string)
    ensures var r := DynamicFieldPlaceholder(k, TreeOf(kid), encode);
      && (r.Some? ==> DynamicChild(k, TreeOf(kid), encode) == TreeOf(Leaf(VString(r.value))))
      && (r.None? ==> DynamicChild(k, TreeOf(kid), encode) == DynamicFields(TreeOf(kid), encode))
  {
    hide DynamicFieldPlaceholder, DynamicFields;
  }

  ghost predicate DynamicDone(kids: map<string, Layout>, now: map<string, Layout>, left: set<string>,
      encode: bytes -> string) {
    && now.Keys == kids.Keys
    && forall k :: k in kids ==>
         if k in left then now[k] == kids[k] else TreeOf(now[k]) == DynamicChild(k, TreeOf(kids[k]), encode)
  }

  lemma DynamicStep(kids: map<string, Layout>, now: map<string, Layout>, left: set<string>, k: string, kid: Layout,
      encode: bytes -> string)
    requires DynamicDone(kids, now, left, encode) && k in left && k in kids
    requires TreeOf(kid) == DynamicChild(k, TreeOf(now[k]), encode)
    ensures DynamicDone(kids, now[k := kid], left - {k}, encode)
  {
    hide TreeOf, DynamicChild;
  }

  lemma DynamicOfMap(node: MapNode, kids: map<string, Layout>, now: map<string, Layout>, region: set<object>,
      encode: bytes -> string)
    requires DynamicDone(kids, now, {}, encode) && !DecoratedSignature(TreeOf(MapAt(node, kids, region)).fields)
    ensures TreeOf(MapAt(node, now, region)) == DynamicFields(TreeOf(MapAt(node, kids, region)), encode)
  {
    hide DecoratedSignature;
  }

  ghost predicate DynamicDoneUpTo(parts: seq<Layout>, now: seq<Layout>, i: nat, encode: bytes -> string) {
    && |now| == |parts|
    && forall j :: 0 <= j < |parts| ==>
         if i <= j then now[j] == parts[j] else TreeOf(now[j]) == DynamicFields(TreeOf(parts[j]), encode)
  }

  lemma DynamicStepAt(parts: seq<Layout>, now: seq<Layout>, i: nat, kid: Layout, encode: bytes -> string)
    requires DynamicDoneUpTo(parts, now, i, encode) && i < |parts|
    requires TreeOf(kid) == DynamicFields(TreeOf(now[i]), encode)
    ensures DynamicDoneUpTo(parts, now[i := kid], i + 1, encode)
  {
    hide TreeOf, DynamicFields;
  }

  lemma DynamicOfArray(items: array<Value>, parts: seq<Layout>, now: seq<Layout>, region: set<object>,
      encode: bytes -> string)
    requires DynamicDoneUpTo(parts, now, |parts|, encode)
    ensures TreeOf(ArrayAt(items, now, region)) == DynamicFields(TreeOf(ArrayAt(items, parts, region)), encode)
  {
  }

  /** Replaces every run-local field below `v` by its placeholder, whatever order a map's keys come in. */
  method NormalizeDynamicFields(v: Value, encode: bytes -> string, ghost a: Layout) returns (ghost b: Layout)
    requires Holds(v, a)
    modifies Region(a)
    ensures Holds(v, b) && Region(b) <= Region(a) && TreeOf(b) == DynamicFields(TreeOf(a), encode)
    decreases a, 1
  {
    KindsAgree(v, a);
    match v
    case VMap(node) =>
      var signature := IsDecoratedSignature(node, a);
      if signature {
        b := WriteSignature(node, a);
      } else {
        b := DynamicInMap(node, encode, a);
      }
    case VArray(items) => b := DynamicInArray(items, encode, a);
    case _ => b := a;
  }

  /** A signature's two entries become placeholders. */
  method WriteSignature(node: MapNode, ghost a: Layout) returns (ghost b: Layout)
    requires Holds(VMap(node), a) && a.MapAt? && DecoratedSignature(TreeOf(a).fields)
    modifies node
    ensures Holds(VMap(node), b) && Region(b) <= Region(a) && TreeOf(b) == Obj(SIGNATURE_PLACEHOLDER)
  {
    ghost var kids, rest := a.kids, a.region - {node};
    MapHolds(node, kids, a.region);
    SignatureWritten(node, kids, a.region);
    hide Holds, EntriesHold, DecoratedSignature, TreeOf;
    EntrySet(node.entries, kids, rest, "Hint", VString("$hint"));
    node.entries := node.entries["Hint" := VString("$hint")];
    ghost var now := kids["Hint" := Leaf(VString("$hint"))];
    EntrySet(node.entries, now, rest, "Signature", VString("$signature"));
    node.entries := node.entries["Signature" := VString("$signature")];
    now := now["Signature" := Leaf(VString("$signature"))];
    b := MapAt(node, now, a.region);
    MapHolds(node, now, a.region);
  }

  lemma SignatureWritten(node: MapNode, kids: map<string, Layout>, region: set<object>)
    requires DecoratedSignature(TreeOf(MapAt(node, kids, region)).fields)
    ensures "Hint" in kids && "Signature" in kids
    ensures var now := kids["Hint" := Leaf(VString("$hint"))]["Signature" := Leaf(VString("$signature"))];
      TreeOf(MapAt(node, now, region)) == Obj(SIGNATURE_PLACEHOLDER)
  {
    JsonNormal.TwoKeys(TreeOf(MapAt(node, kids, region)).fields);
    assert kids.Keys == {"Hint", "Signature"};
    var now := kids["Hint" := Leaf(VString("$hint"))]["Signature" := Leaf(VString("$signature"))];
    hide DecoratedSignature;
    assert TreeOf(MapAt(node, now, region)).fields == SIGNATURE_PLACEHOLDER;
  }

  method DynamicInMap(node: MapNode, encode: bytes -> string, ghost a: Layout) returns (ghost b: Layout)
    requires Holds(VMap(node), a) && a.MapAt? && !DecoratedSignature(TreeOf(a).fields)
    modifies Region(a)
    ensures Holds(VMap(node), b) && Region(b) <= Region(a) && TreeOf(b) == DynamicFields(TreeOf(a), encode)
    decreases a, 0
  {
    ghost var kids, region := a.kids, a.region;
    ghost var rest, now := region - {node}, kids;
    MapHolds(node, kids, region);
    var left := node.entries.Keys;
    assert DynamicDone(kids, now, left, encode);
    hide Holds, EntriesHold, TreeOf, DynamicChild, DynamicFields, DecoratedSignature;
    while left != {}
      invariant left <= kids.Keys == now.Keys == node.entries.Keys && EntriesHold(node.entries, now, rest)
      invariant DynamicDone(kids, now, left, encode)
      decreases left
    {
      var k :| k in left;
      EntryHolds(node.entries, now, rest, k);
      ghost var kid := VisitDynamicEntry(node, k, encode, now, rest);
      DynamicStep(kids, now, left, k, kid, encode);
      now := now[k := kid];
      left := left - {k};
    }
    b := MapAt(node, now, region);
    DynamicOfMap(node, kids, now, region, encode);
    MapHolds(node, now, region);
  }

  method DynamicInArray(items: array<Value>, encode: bytes -> string, ghost a: Layout) returns (ghost b: Layout)
    requires Holds(VArray(items), a) && a.ArrayAt?
    modifies Region(a)
    ensures Holds(VArray(items), b) && Region(b) <= Region(a) && TreeOf(b) == DynamicFields(TreeOf(a), encode)
    decreases a, 0
  {
    ghost var parts, region := a.parts, a.region;
    ghost var rest, now := region - {items}, parts;
    ArrayHolds(items, parts, region);
    assert DynamicDoneUpTo(parts, now, 0, encode) && |parts| == items.Length;
    hide Holds, ElementsHold, TreeOf, DynamicFields;
    for i := 0 to items.Length
      invariant |now| == |parts| == items.Length && ElementsHold(items[..], now, rest)
      invariant DynamicDoneUpTo(parts, now, i, encode)
    {
      ghost var was := items[..];
      ElementHolds(was, now, rest, i);
      OtherElements(was, now, rest, i);
      ghost var kid := NormalizeDynamicFields(items[i], encode, now[i]);
      assert items[..] == was;
      ElementRejoins(was, now, rest, i, kid);
      DynamicStepAt(parts, now, i, kid, encode);
      now := now[i := kid];
    }
    b := ArrayAt(items, now, region);
    DynamicOfArray(items, parts, now, region, encode);
    ArrayHolds(items, now, region);
  }

  // ---- nulls ----

  /** Entries not yet visited are as they were; visited ones are gone if null, stripped otherwise. */
  ghost predicate NullsDone(kids: map<string, Layout>, now: map<string, Layout>, left: set<string>) {
    && now.Keys <= kids.Keys
    && forall k :: k in kids ==>
         if k in left then k in now && now[k] == kids[k]
         else if TreeOf(kids[k]) == Null then k !in now
         else k in now && TreeOf(now[k]) == StripNulls(TreeOf(kids[k]))
  }

  lemma NullsDrop(kids: map<string, Layout>, now: map<string, Layout>, left: set<string>, k: string)
    requires NullsDone(kids, now, left) && k in left && k in kids && TreeOf(kids[k]) == Null
    ensures NullsDone(kids, now - {k}, left - {k})
  {
    hide TreeOf, StripNulls;
  }

  lemma NullsStep(kids: map<string, Layout>, now: map<string, Layout>, left: set<string>, k: string, kid: Layout)
    requires NullsDone(kids, now, left) && k in left && k in kids && TreeOf(kids[k]) != Null
    requires TreeOf(kid) == StripNulls(TreeOf(kids[k]))
    ensures NullsDone(kids, now[k := kid], left - {k})
  {
    hide TreeOf, StripNulls;
  }

  lemma NullsOfMap(node: MapNode, kids: map<string, Layout>, now: map<string, Layout>, region: set<object>)
    requires NullsDone(kids, now, {})
    ensures TreeOf(MapAt(node, now, region)) == StripNulls(TreeOf(MapAt(node, kids, region)))
  {
    var t := TreeOf(MapAt(node, kids, region)).fields;
    var u := TreeOf(MapAt(node, now, region)).fields;
    assert forall k :: k in u <==> k in t && t[k] != Null;
  }

  ghost predicate NullsDoneUpTo(parts: seq<Layout>, now: seq<Layout>, i: nat) {
    && |now| == |parts|
    && forall j :: 0 <= j < |parts| ==>
         if i <= j then now[j] == parts[j] else TreeOf(now[j]) == StripNulls(TreeOf(parts[j]))
  }

  lemma NullsStepAt(parts: seq<Layout>, now: seq<Layout>, i: nat, kid: Layout)
    requires NullsDoneUpTo(parts, now, i) && i < |parts| && TreeOf(kid) == StripNulls(TreeOf(now[i]))
    ensures NullsDoneUpTo(parts, now[i := kid], i + 1)
  {
    hide TreeOf, StripNulls;
  }

  lemma NullsOfArray(items: array<Value>, parts: seq<Layout>, now: seq<Layout>, region: set<object>)
    requires NullsDoneUpTo(parts, now, |parts|)
    ensures TreeOf(ArrayAt(items, now, region)) == StripNulls(TreeOf(ArrayAt(items, parts, region)))
  {
  }

  /** Deletes every null entry of every map below `v`, whatever order a map's keys come in. */
  method StripNullEntries(v: Value, ghost a: Layout) returns (ghost b: Layout)
    requires Holds(v, a)
    modifies Region(a)
    ensures Holds(v, b) && Region(b) <= Region(a) && TreeOf(b) == StripNulls(TreeOf(a))
    decreases a, 1
  {
    KindsAgree(v, a);
    match v
    case VMap(node) => b := NullsInMap(node, a);
    case VArray(items) => b := NullsInArray(items, a);
    case _ => b := a;
  }

  method NullsInMap(node: MapNode, ghost a: Layout) returns (ghost b: Layout)
    requires Holds(VMap(node), a) && a.MapAt?
    modifies Region(a)
    ensures Holds(VMap(node), b) && Region(b) <= Region(a) && TreeOf(b) == StripNulls(TreeOf(a))
    decreases a, 0
  {
    ghost var kids, region := a.kids, a.region;
    ghost var rest, now := region - {node}, kids;
    MapHolds(node, kids, region);
    var left := node.entries.Keys;
    assert NullsDone(kids, now, left);
    hide Holds, EntriesHold, TreeOf, StripNulls;
    while left != {}
      invariant left <= kids.Keys && left <= now.Keys == node.entries.Keys && EntriesHold(node.entries, now, rest)
      invariant NullsDone(kids, now, left)
      decreases left
    {
      var k :| k in left;
      EntryHolds(node.entries, now, rest, k);
      var val := node.entries[k];
      KindsAgree(val, now[k]);
      if val.VNull? {
        EntryDropped(node.entries, now, rest, k);
        NullsDrop(kids, now, left, k);
        node.entries := node.entries - {k};
        now := now - {k};
        left := left - {k};
        continue;
      }
      OtherEntries(node.entries, now, rest, k);
      ghost var kid := StripNullEntries(val, now[k]);
      EntryRejoins(node.entries, now, rest, k, kid);
      NullsStep(kids, now, left, k, kid);
      now := now[k := kid];
      left := left - {k};
    }
    b := MapAt(node, now, region);
    NullsOfMap(node, kids, now, region);
    MapHolds(node, now, region);
  }

  method NullsInArray(items: array<Value>, ghost a: Layout) returns (ghost b: Layout)
    requires Holds(VArray(items), a) && a.ArrayAt?
    modifies Region(a)
    ensures Holds(VArray(items), b) && Region(b) <= Region(a) && TreeOf(b) == StripNulls(TreeOf(a))
    decreases a, 0
  {
    ghost var parts, region := a.parts, a.region;
    ghost var rest, now := region - {items}, parts;
    ArrayHolds(items, parts, region);
    assert NullsDoneUpTo(parts, now, 0) && |parts| == items.Length;
    hide Holds, ElementsHold, TreeOf, StripNulls;
    for i := 0 to items.Length
      invariant |now| == |parts| == items.Length && ElementsHold(items[..], now, rest)
      invariant NullsDoneUpTo(parts, now, i)
    {
      ghost var was := items[..];
      ElementHolds(was, now, rest, i);
      OtherElements(was, now, rest, i);
      ghost var kid := StripNullEntries(items[i], now[i]);
      assert items[..] == was;
      ElementRejoins(was, now, rest, i, kid);
      NullsStepAt(parts, now, i, kid);
      now := now[i := kid];
    }
    b := ArrayAt(items, now, region);
    NullsOfArray(items, parts, now, region);
    ArrayHolds(items, now, region);
  }

  // ---- all three ----

  /** What decoding a payload does to the tree it has built. */
  method NormalizeInPlace(root: Value, keys: Strkey, ghost a: Layout) returns (ghost b: Layout)
    requires Holds(root, a)
    modifies Region(a)
    ensures Holds(root, b) && TreeOf(b) == Normalize(TreeOf(a), keys)
  {
    b := NormalizeAccountIDs(root, keys.account, a);
    b := NormalizeDynamicFields(root, keys.contract, b);
    b := StripNullEntries(root, b);
  }
}
