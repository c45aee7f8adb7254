/**
 The rewrites as they run: in place, over maps and arrays that share nothing, visiting a map's
 keys in any order. Each is proved to leave the tree that the pure rewrite computes.
 */
module JsonHeap {
  import opened Base
  import opened JsonTree

  /** A decoded value: scalars, and references to the maps and arrays that hold the rest. */
  datatype Value =
    | VNull
    | VBool(truth: bool)
    | VNumber(literal: string)
    | VString(text: string)
    | VArray(items: array<Value>)
    | VMap(node: MapNode)

  class MapNode {
    var entries: map<string, Value>

    constructor (m: map<string, Value>)
      ensures entries == m
    {
      entries := m;
    }
  }

  /** Where each part of a tree lives, and the region of memory it may use. */
  datatype Layout =
    | Leaf(value: Value)
    | MapAt(node: MapNode, kids: map<string, Layout>, region: set<object>)
    | ArrayAt(items: array<Value>, parts: seq<Layout>, region: set<object>)

  ghost function Region(a: Layout): set<object> {
    if a.Leaf? then {} else a.region
  }

  /**
   The heap holds `v` laid out as `a`. Decoding builds every map and array afresh, so nothing
   is shared: the parts of a map or an array lie in regions apart.
   */
  ghost predicate Holds(v: Value, a: Layout)
    reads Region(a)
    decreases a
  {
    match a
    case Leaf(x) => v == x && !v.VArray? && !v.VMap?
    case MapAt(node, kids, region) =>
      && node in region && Apart(kids, region - {node})
      && v == VMap(node) && node.entries.Keys == kids.Keys
      && forall k :: k in kids ==> Region(kids[k]) <= region && Holds(node.entries[k], kids[k])
    case ArrayAt(items, parts, region) =>
      && items in region && InTurn(parts, region - {items})
      && v == VArray(items) && items.Length == |parts|
      && forall i :: 0 <= i < |parts| ==> Region(parts[i]) <= region && Holds(items[i], parts[i])
  }

  ghost predicate Apart(kids: map<string, Layout>, region: set<object>) {
    && (forall k :: k in kids ==> Region(kids[k]) <= region)
    && forall k, l :: k in kids && l in kids && k != l ==> Region(kids[k]) !! Region(kids[l])
  }

  ghost predicate InTurn(parts: seq<Layout>, region: set<object>) {
    && (forall i :: 0 <= i < |parts| ==> Region(parts[i]) <= region)
    && forall i, j :: 0 <= i < |parts| && 0 <= j < |parts| && i != j ==> Region(parts[i]) !! Region(parts[j])
  }

  function Scalar(v: Value): Tree {
    match v
    case VBool(b) => Bool(b)
    case VNumber(l) => Number(l)
    case VString(s) => Str(s)
    case _ => Null
  }

  ghost function TreeOf(a: Layout): Tree {
    match a
    case Leaf(v) => Scalar(v)
    case MapAt(_, kids, _) => Obj(map k | k in kids :: TreeOf(kids[k]))
    case ArrayAt(_, parts, _) => Arr(seq(|parts|, i requires 0 <= i < |parts| => TreeOf(parts[i])))
  }

  lemma KindsAgree(v: Value, a: Layout)
    requires Holds(v, a)
    ensures v.VNull? <==> TreeOf(a) == Null
    ensures v.VNumber? <==> TreeOf(a).Number?
    ensures v.VString? <==> TreeOf(a).Str?
    ensures v.VArray? <==> TreeOf(a).Arr? && a.ArrayAt?
    ensures v.VMap? <==> TreeOf(a).Obj? && a.MapAt?
    ensures v.VNumber? ==> TreeOf(a) == Number(v.literal)
    ensures v.VString? ==> TreeOf(a) == Str(v.text)
  {
  }

  // ---- shapes, read off the heap ----

  method AreNumbers(items: array<Value>, ghost a: Layout) returns (r: bool)
    requires Holds(VArray(items), a)
    ensures r <==> ThirtyTwoNumbers(TreeOf(a))
  {
    if items.Length != KEY_SIZE {
      return false;
    }
    for i := 0 to KEY_SIZE
      invariant forall j :: 0 <= j < i ==> TreeOf(a.parts[j]).Number?
    {
      KindsAgree(items[i], a.parts[i]);
      if !items[i].VNumber? {
        assert !TreeOf(a).elems[i].Number?;
        return false;
      }
    }
    return true;
  }

  method ReadBytes(items: array<Value>, ghost a: Layout) returns (r: Option<bytes>)
    requires Holds(VArray(items), a)
    ensures r == AllBytes(TreeOf(a).elems)
  {
    ghost var ts := TreeOf(a).elems;
    var bs := [];
    for i := 0 to items.Length
      invariant AllBytes(ts[..i]) == Some(bs)
    {
      KindsAgree(items[i], a.parts[i]);
      assert ts[..i + 1][..i] == ts[..i];
      if !items[i].VNumber? {
        assert NumericByte(ts[i]).None?;
        return None;
      }
      var b := NumericByte(Number(items[i].literal));
      if b.None? {
        assert NumericByte(ts[i]).None?;
        return None;
      }
      bs := bs + [b.value];
    }
    assert ts[..items.Length] == ts;
    return Some(bs);
  }

  method TryEncodeKey(v: Value, encode: bytes -> string, ghost a: Layout) returns (r: Option<string>)
    requires Holds(v, a)
    ensures r == TryEncodeStrkey(TreeOf(a), encode)
  {
    KindsAgree(v, a);
    if !v.VArray? {
      return None;
    }
    var numbers := AreNumbers(v.items, a);
    if !numbers {
      return None;
    }
    var bs := ReadBytes(v.items, a);
    return match bs case None => None case Some(key) => Some(encode(key));
  }

  method TryEncodeAccount(v: Value, encode: bytes -> string, ghost a: Layout) returns (r: Option<string>)
    requires Holds(v, a)
    ensures r == TryEncodeAccountID(TreeOf(a), encode)
  {
    KindsAgree(v, a);
    if !v.VMap? {
      return None;
    }
    var m := v.node.entries;
    ghost var t := TreeOf(a);
    if "Ed25519" !in m {
      return None;
    }
    KindsAgree(m["Ed25519"], a.kids["Ed25519"]);
    if !m["Ed25519"].VArray? || m["Ed25519"].items.Length != KEY_SIZE {
      return None;
    }
    var remaining := m.Keys;
    while remaining != {}
      invariant remaining <= m.Keys
      invariant forall k :: k in m && k !in remaining ==> AccountSibling(k, t.fields[k])
      decreases remaining
    {
      var k :| k in remaining;
      remaining := remaining - {k};
      KindsAgree(m[k], a.kids[k]);
      if k == "Type" {
        if !m[k].VNumber? || NumericByte(Number(m[k].literal)) != Some(0) {
          assert !AccountSibling(k, t.fields[k]);
          return None;
        }
      } else if k != "Ed25519" && m[k] != VNull {
        assert !AccountSibling(k, t.fields[k]);
        return None;
      }
    }
    var bs := ReadBytes(m["Ed25519"].items, a.kids["Ed25519"]);
    return match bs case None => None case Some(key) => Some(encode(key));
  }

  method IsDecoratedSignature(node: MapNode, ghost a: Layout) returns (r: bool)
    requires Holds(VMap(node), a)
    ensures r <==> DecoratedSignature(TreeOf(a).fields)
  {
    var m := node.entries;
    ghost var t := TreeOf(a);
    assert t.fields.Keys == m.Keys && |t.fields| == |t.fields.Keys| && |m| == |m.Keys|;
    if |m| != 2 || "Hint" !in m || "Signature" !in m {
      return false;
    }
    KindsAgree(m["Hint"], a.kids["Hint"]);
    KindsAgree(m["Signature"], a.kids["Signature"]);
    if !m["Hint"].VArray? || m["Hint"].items.Length != HINT_SIZE {
      return false;
    }
    return m["Signature"].VString? && m["Signature"].text != "";
  }

  // ---- walks ----

  /** Entries laid out as `now`, each in its own part of `rest`. */
  ghost predicate EntriesHold(entries: map<string, Value>, now: map<string, Layout>, rest: set<object>)
    reads rest
  {
    && entries.Keys == now.Keys && Apart(now, rest)
    && forall k :: k in now ==> Region(now[k]) <= rest && Holds(entries[k], now[k])
  }

  lemma MapHolds(node: MapNode, kids: map<string, Layout>, region: set<object>)
    requires node in region
    ensures Holds(VMap(node), MapAt(node, kids, region)) <==> EntriesHold(node.entries, kids, region - {node})
  {
  }

  lemma EntrySet(entries: map<string, Value>, now: map<string, Layout>, rest: set<object>, k: string, v: Value)
    requires EntriesHold(entries, now, rest) && k in now && !v.VMap? && !v.VArray?
    ensures EntriesHold(entries[k := v], now[k := Leaf(v)], rest)
  {
    assert Holds(v, Leaf(v));
    hide Holds;
  }

  lemma EntryDropped(entries: map<string, Value>, now: map<string, Layout>, rest: set<object>, k: string)
    requires EntriesHold(entries, now, rest)
    ensures EntriesHold(entries - {k}, now - {k}, rest)
  {
    hide Holds;
  }

  /** All entries but one, apart from that one's region. */
  lemma OtherEntries(entries: map<string, Value>, now: map<string, Layout>, rest: set<object>, k: string)
    requires EntriesHold(entries, now, rest) && k in now
    ensures EntriesHold(entries - {k}, now - {k}, rest - Region(now[k]))
  {
    hide Holds;
  }

  lemma EntryRejoins(entries: map<string, Value>, now: map<string, Layout>, rest: set<object>, k: string, kid: Layout)
    requires k in now && k in entries
    requires Region(now[k]) <= rest && Region(kid) <= Region(now[k]) && Holds(entries[k], kid)
    requires EntriesHold(entries - {k}, now - {k}, rest - Region(now[k]))
    ensures EntriesHold(entries, now[k := kid], rest)
  {
    hide Holds;
    forall l | l in entries
      ensures l in now[k := kid] && Region(now[k := kid][l]) <= rest && Holds(entries[l], now[k := kid][l])
    {
      if l != k { assert l in entries - {k} && l in now - {k}; }
    }
    forall l | l in now ensures l in entries {
      if l != k { assert l in now - {k}; }
    }
    assert Apart(now[k := kid], rest) by {
      forall l, j | l in now && j in now && l != j ensures Region(now[k := kid][l]) !! Region(now[k := kid][j]) {
        if l != k { assert l in now - {k} && Region((now - {k})[l]) <= rest - Region(now[k]); }
        if j != k { assert j in now - {k} && Region((now - {k})[j]) <= rest - Region(now[k]); }
      }
    }
  }

  lemma EntryHolds(entries: map<string, Value>, now: map<string, Layout>, rest: set<object>, k: string)
    requires EntriesHold(entries, now, rest) && k in now
    ensures k in entries && Region(now[k]) <= rest && Holds(entries[k], now[k])
  {
  }

  // ---- arrays ----

  /** Elements laid out as `now`, each in its own part of `rest`. */
  ghost predicate ElementsHold(elems: seq<Value>, now: seq<Layout>, rest: set<object>)
    reads rest
  {
    && |elems| == |now| && InTurn(now, rest)
    && forall i :: 0 <= i < |now| ==> Region(now[i]) <= rest && Holds(elems[i], now[i])
  }

  lemma ArrayHolds(items: array<Value>, parts: seq<Layout>, region: set<object>)
    requires items in region
    ensures Holds(VArray(items), ArrayAt(items, parts, region)) <==> ElementsHold(items[..], parts, region - {items})
  {
    assert |items[..]| == items.Length && forall i :: 0 <= i < items.Length ==> items[..][i] == items[i];
  }

  lemma ElementSet(elems: seq<Value>, now: seq<Layout>, rest: set<object>, i: nat, v: Value)
    requires ElementsHold(elems, now, rest) && i < |now| && !v.VMap? && !v.VArray?
    ensures ElementsHold(elems[i := v], now[i := Leaf(v)], rest)
  {
    assert Holds(v, Leaf(v));
    hide Holds;
  }

  lemma OtherElements(elems: seq<Value>, now: seq<Layout>, rest: set<object>, i: nat)
    requires ElementsHold(elems, now, rest) && i < |now|
    ensures ElementsHold(elems[i := VNull], now[i := Leaf(VNull)], rest - Region(now[i]))
  {
    assert Holds(VNull, Leaf(VNull));
    hide Holds;
  }

  lemma ElementRejoins(elems: seq<Value>, now: seq<Layout>, rest: set<object>, i: nat, kid: Layout)
    requires i < |now| == |elems| && Region(now[i]) <= rest && Region(kid) <= Region(now[i]) && Holds(elems[i], kid)
    requires ElementsHold(elems[i := VNull], now[i := Leaf(VNull)], rest - Region(now[i]))
    ensures ElementsHold(elems, now[i := kid], rest)
  {
    hide Holds;
    var hole, put := now[i := Leaf(VNull)], now[i := kid];
    forall j | 0 <= j < |now| ensures Region(put[j]) <= rest && Holds(elems[j], put[j]) {
      if j != i { assert Holds(elems[i := VNull][j], hole[j]); }
    }
    assert InTurn(put, rest) by {
      forall l, j | 0 <= l < |now| && 0 <= j < |now| && l != j ensures Region(put[l]) !! Region(put[j]) {
        assert l != i ==> put[l] == hole[l] && Region(hole[l]) <= rest - Region(now[i]);
        assert j != i ==> put[j] == hole[j] && Region(hole[j]) <= rest - Region(now[i]);
      }
    }
  }

  lemma ElementHolds(elems: seq<Value>, now: seq<Layout>, rest: set<object>, i: nat)
    requires ElementsHold(elems, now, rest) && i < |now|
    ensures i < |elems| && Region(now[i]) <= rest && Holds(elems[i], now[i])
  {
  }
}
