/**
 What the three rewrites achieve: each removes every one of its shapes and is idempotent; the
 three in sequence are idempotent exactly on trees where stripping nulls creates no new shape.
 */
module JsonNormal {
  import opened Base
  import opened JsonTree

  // ---- account ids ----

  /** No account-shaped object strictly below the root. */
  predicate NoAccountBelow(t: Tree) {
    match t
    case Obj(m) => forall k :: k in m ==> !AccountShape(m[k]) && NoAccountBelow(m[k])
    case Arr(s) => forall i :: 0 <= i < |s| ==> !AccountShape(s[i]) && NoAccountBelow(s[i])
    case _ => true
  }

  /** Rewriting children keeps every scalar, and the kind of what is not an account. */
  lemma AccountChildKeeps(v: Tree, encode: bytes -> string)
    ensures var w := AccountChild(v, encode);
      && (w == Null <==> v == Null)
      && (w.Number? ==> w == v) && (v.Number? ==> w == v)
      && (w.Arr? <==> v.Arr?)
      && (v.Arr? ==> |w.elems| == |v.elems|)
      && (v.Arr? ==> forall i :: 0 <= i < |v.elems| ==> w.elems[i] == AccountChild(v.elems[i], encode))
      && (w.Obj? ==> v.Obj?)
  {
  }

  lemma BytesNotCreated(ts: seq<Tree>, us: seq<Tree>, encode: bytes -> string)
    requires |us| == |ts| && forall i :: 0 <= i < |ts| ==> us[i] == AccountChild(ts[i], encode)
    ensures AllBytes(us) == AllBytes(ts)
  {
    forall i | 0 <= i < |ts| ensures NumericByte(us[i]) == NumericByte(ts[i]) {
      AccountChildKeeps(ts[i], encode);
    }
    var a, b := AllBytes(us), AllBytes(ts);
    if a.Some? {
      assert forall i :: 0 <= i < |ts| ==> NumericByte(us[i]).Some?;
      assert a.value == b.value;
    }
  }

  /** Rewriting below an object creates no account shape at it, and destroys none. */
  lemma AccountShapeUnchanged(t: Tree, encode: bytes -> string)
    ensures AccountShape(AccountIDs(t, encode)) <==> AccountShape(t)
  {
    if t.Obj? {
      var m, u := t.fields, AccountIDs(t, encode).fields;
      assert u.Keys == m.Keys && forall k :: k in m ==> u[k] == AccountChild(m[k], encode);
      forall k | k in m ensures AccountSibling(k, u[k]) <==> AccountSibling(k, m[k]) {
        AccountChildKeeps(m[k], encode);
      }
      if "Ed25519" in m {
        AccountChildKeeps(m["Ed25519"], encode);
        if m["Ed25519"].Arr? {
          BytesNotCreated(m["Ed25519"].elems, u["Ed25519"].elems, encode);
        }
      }
      hide AccountSibling, AccountChild, AllBytes;
      assert (forall k :: k in u ==> AccountSibling(k, u[k])) <==> forall k :: k in m ==> AccountSibling(k, m[k]);
    }
  }

  lemma AccountChildCases(v: Tree, encode: bytes -> string)
    ensures AccountShape(v) ==> AccountChild(v, encode).Str? && v.Obj?
    ensures !AccountShape(v) ==> AccountChild(v, encode) == AccountIDs(v, encode)
  {
  }

  /** After the account pass no account-shaped object remains below the root. */
  lemma {:induction false} AccountsAreComplete(t: Tree, encode: bytes -> string)
    ensures NoAccountBelow(AccountIDs(t, encode))
    decreases t, 0
  {
    hide AccountShape;
    match t
    case Obj(m) =>
      forall k | k in m
        ensures !AccountShape(AccountChild(m[k], encode)) && NoAccountBelow(AccountChild(m[k], encode))
      {
        AccountsAreCompleteInChild(m[k], encode);
      }
    case Arr(s) =>
      forall i | 0 <= i < |s|
        ensures !AccountShape(AccountChild(s[i], encode)) && NoAccountBelow(AccountChild(s[i], encode))
      {
        AccountsAreCompleteInChild(s[i], encode);
      }
    case _ =>
  }

  lemma {:induction false} AccountsAreCompleteInChild(v: Tree, encode: bytes -> string)
    ensures !AccountShape(AccountChild(v, encode)) && NoAccountBelow(AccountChild(v, encode))
    decreases v, 1
  {
    if AccountShape(v) {
      assert !AccountShape(Str(TryEncodeAccountID(v, encode).value));
    } else {
      hide AccountShape;
      AccountShapeUnchanged(v, encode);
      AccountsAreComplete(v, encode);
    }
  }

  /** The pass changes exactly the trees with an account-shaped object below the root. */
  lemma {:induction false} AccountsFixed(t: Tree, encode: bytes -> string)
    ensures AccountIDs(t, encode) == t <==> NoAccountBelow(t)
  {
    hide AccountShape;
    match t
    case Obj(m) =>
      var u := AccountIDs(t, encode).fields;
      forall k | k in m ensures u[k] == m[k] <==> !AccountShape(m[k]) && NoAccountBelow(m[k]) {
        AccountsFixed(m[k], encode);
        AccountChildCases(m[k], encode);
      }
      assert u.Keys == m.Keys;
      if NoAccountBelow(t) {
        assert forall k :: k in m ==> u[k] == m[k];
        assert u == m;
      } else {
        var k :| k in m && !(!AccountShape(m[k]) && NoAccountBelow(m[k]));
        assert u[k] != m[k];
      }
    case Arr(s) =>
      var u := AccountIDs(t, encode).elems;
      forall i | 0 <= i < |s| ensures u[i] == s[i] <==> !AccountShape(s[i]) && NoAccountBelow(s[i]) {
        AccountsFixed(s[i], encode);
        AccountChildCases(s[i], encode);
      }
      if NoAccountBelow(t) {
        assert u == s;
      } else {
        var i :| 0 <= i < |s| && !(!AccountShape(s[i]) && NoAccountBelow(s[i]));
        assert u[i] != s[i];
      }
    case _ =>
  }

  lemma AccountsIdempotent(t: Tree, encode: bytes -> string)
    ensures AccountIDs(AccountIDs(t, encode), encode) == AccountIDs(t, encode)
  {
    AccountsAreComplete(t, encode);
    AccountsFixed(AccountIDs(t, encode), encode);
  }

  // ---- dynamic fields ----

  predicate DynamicShape(k: string, v: Tree) {
    WellShaped(k, v) || (k == "ContractId" && ThirtyTwoNumbers(v) && AllBytes(v.elems).Some?)
  }

  predicate NoDynamicField(t: Tree) {
    match t
    case Obj(m) => !DecoratedSignature(m) && forall k :: k in m ==> !DynamicShape(k, m[k]) && NoDynamicField(m[k])
    case Arr(s) => forall i :: 0 <= i < |s| ==> NoDynamicField(s[i])
    case _ => true
  }

  /** The pass leaves scalars alone and keeps the kind of everything. */
  lemma DynamicFieldsKeeps(v: Tree, encode: bytes -> string)
    ensures var w := DynamicFields(v, encode);
      && (v.Obj? <==> w.Obj?) && (v.Arr? <==> w.Arr?) && (!v.Obj? && !v.Arr? ==> w == v)
      && (v.Arr? ==> |w.elems| == |v.elems|)
      && (v.Arr? ==> forall i :: 0 <= i < |v.elems| ==> w.elems[i] == DynamicFields(v.elems[i], encode))
  {
  }

  lemma NumbersUnchanged(v: Tree, encode: bytes -> string)
    ensures ThirtyTwoNumbers(DynamicFields(v, encode)) <==> ThirtyTwoNumbers(v)
    ensures ThirtyTwoNumbers(v) ==> DynamicFields(v, encode) == v
  {
    DynamicFieldsKeeps(v, encode);
    if v.Arr? {
      var w := DynamicFields(v, encode);
      forall i | 0 <= i < |v.elems|
        ensures (w.elems[i].Number? <==> v.elems[i].Number?) && (v.elems[i].Number? ==> w.elems[i] == v.elems[i])
      {
        DynamicFieldsKeeps(v.elems[i], encode);
      }
      hide DynamicFields;
      if ThirtyTwoNumbers(v) {
        assert w.elems == v.elems;
      }
    }
  }

  lemma ShapeUnchanged(k: string, v: Tree, encode: bytes -> string)
    ensures DynamicShape(k, DynamicFields(v, encode)) <==> DynamicShape(k, v)
  {
    DynamicFieldsKeeps(v, encode);
    NumbersUnchanged(v, encode);
  }

  /** An object that is no signature does not become one by rewriting its fields. */
  lemma SignatureNotCreated(m: map<string, Tree>, encode: bytes -> string)
    requires !DecoratedSignature(m)
    ensures DynamicFields(Obj(m), encode).fields.Keys == m.Keys
    ensures !DecoratedSignature(DynamicFields(Obj(m), encode).fields)
  {
    var u := DynamicFields(Obj(m), encode).fields;
    assert u.Keys == m.Keys && |u| == |u.Keys| && |m| == |m.Keys|;
    if "Hint" in m && "Signature" in m {
      assert u["Hint"] == DynamicChild("Hint", m["Hint"], encode) && !DynamicShape("Hint", m["Hint"]);
      assert u["Signature"] == DynamicChild("Signature", m["Signature"], encode);
      assert !DynamicShape("Signature", m["Signature"]);
      DynamicChildCases("Hint", m["Hint"], encode);
      DynamicChildCases("Signature", m["Signature"], encode);
      hide DynamicFields;
      DynamicFieldsKeeps(m["Hint"], encode);
      DynamicFieldsKeeps(m["Signature"], encode);
    }
  }

  lemma DynamicChildCases(k: string, v: Tree, encode: bytes -> string)
    ensures DynamicShape(k, v) ==> DynamicChild(k, v, encode).Str? && !v.Str?
    ensures !DynamicShape(k, v) ==> DynamicChild(k, v, encode) == DynamicFields(v, encode)
  {
  }

  /** Each field of a rewritten object is out of shape. */
  lemma DynamicChildIsPlain(k: string, v: Tree, encode: bytes -> string)
    ensures !DynamicShape(k, DynamicChild(k, v, encode))
  {
    DynamicChildCases(k, v, encode);
    if DynamicShape(k, v) {
      StringsHaveNoShape(k, DynamicChild(k, v, encode).text);
    } else {
      ShapeUnchanged(k, v, encode);
    }
  }

  /** After the dynamic-field pass no well-shaped dynamic position remains. */
  lemma {:induction false} DynamicFieldsAreComplete(t: Tree, encode: bytes -> string)
    ensures NoDynamicField(DynamicFields(t, encode))
  {
    match t
    case Obj(m) =>
      if !DecoratedSignature(m) {
        var u := DynamicFields(t, encode).fields;
        SignatureNotCreated(m, encode);
        assert forall k :: k in m ==> u[k] == DynamicChild(k, m[k], encode);
        hide DecoratedSignature, DynamicShape, DynamicFields, DynamicChild;
        forall k | k in m ensures !DynamicShape(k, u[k]) && NoDynamicField(u[k]) {
          DynamicChildIsPlain(k, m[k], encode);
          DynamicChildCases(k, m[k], encode);
          if !DynamicShape(k, m[k]) {
            DynamicFieldsAreComplete(m[k], encode);
          }
        }
      }
    case Arr(s) =>
      forall i | 0 <= i < |s| ensures NoDynamicField(DynamicFields(s[i], encode)) {
        DynamicFieldsAreComplete(s[i], encode);
      }
    case _ =>
  }

  lemma StringsHaveNoShape(k: string, s: string)
    ensures !DynamicShape(k, Str(s))
  {
  }

  lemma {:induction false} DynamicFieldsFixed(t: Tree, encode: bytes -> string)
    ensures DynamicFields(t, encode) == t <==> NoDynamicField(t)
  {
    match t
    case Obj(m) =>
      if DecoratedSignature(m) {
        assert m["Hint"] != SIGNATURE_PLACEHOLDER["Hint"];
      } else {
        var u := DynamicFields(t, encode).fields;
        forall k | k in m ensures u[k] == m[k] <==> !DynamicShape(k, m[k]) && NoDynamicField(m[k]) {
          DynamicChildCases(k, m[k], encode);
          DynamicFieldsFixed(m[k], encode);
        }
        hide DecoratedSignature, DynamicShape;
        if NoDynamicField(t) {
          assert u == m;
        } else {
          var k :| k in m && !(!DynamicShape(k, m[k]) && NoDynamicField(m[k]));
          assert u[k] != m[k];
        }
      }
    case Arr(s) =>
      var u := DynamicFields(t, encode).elems;
      forall i | 0 <= i < |s| ensures u[i] == s[i] <==> NoDynamicField(s[i]) {
        DynamicFieldsFixed(s[i], encode);
      }
      if NoDynamicField(t) {
        assert u == s;
      } else {
        var i :| 0 <= i < |s| && !NoDynamicField(s[i]);
        assert u[i] != s[i];
      }
    case _ =>
  }

  lemma DynamicFieldsIdempotent(t: Tree, encode: bytes -> string)
    ensures DynamicFields(DynamicFields(t, encode), encode) == DynamicFields(t, encode)
  {
    DynamicFieldsAreComplete(t, encode);
    DynamicFieldsFixed(DynamicFields(t, encode), encode);
  }

  // ---- nulls ----

  /** No object at any depth has a null entry. */
  predicate NoNullEntries(t: Tree) {
    match t
    case Obj(m) => forall k :: k in m ==> m[k] != Null && NoNullEntries(m[k])
    case Arr(s) => forall i :: 0 <= i < |s| ==> NoNullEntries(s[i])
    case _ => true
  }

  lemma StripKeeps(v: Tree)
    ensures var w := StripNulls(v);
      && (v.Obj? <==> w.Obj?) && (v.Arr? <==> w.Arr?) && (!v.Obj? && !v.Arr? ==> w == v)
      && (v.Arr? ==> |w.elems| == |v.elems| && forall i :: 0 <= i < |v.elems| ==> w.elems[i] == StripNulls(v.elems[i]))
  {
  }

  lemma {:induction false} StripIsComplete(t: Tree)
    ensures NoNullEntries(StripNulls(t))
  {
    match t
    case Obj(m) =>
      forall k | k in m && m[k] != Null ensures StripNulls(m[k]) != Null && NoNullEntries(StripNulls(m[k])) {
        StripKeeps(m[k]);
        StripIsComplete(m[k]);
      }
    case Arr(s) =>
      forall i | 0 <= i < |s| ensures NoNullEntries(StripNulls(s[i])) {
        StripIsComplete(s[i]);
      }
    case _ =>
  }

  lemma {:induction false} StripFixed(t: Tree)
    ensures StripNulls(t) == t <==> NoNullEntries(t)
  {
    match t
    case Obj(m) =>
      var u := StripNulls(t).fields;
      forall k | k in m ensures (k in u && u[k] == m[k]) <==> m[k] != Null && NoNullEntries(m[k]) {
        StripFixed(m[k]);
      }
      if NoNullEntries(t) {
        assert u == m;
      } else {
        var k :| k in m && !(m[k] != Null && NoNullEntries(m[k]));
        assert !(k in u && u[k] == m[k]);
      }
    case Arr(s) =>
      var u := StripNulls(t).elems;
      forall i | 0 <= i < |s| ensures u[i] == s[i] <==> NoNullEntries(s[i]) {
        StripFixed(s[i]);
      }
      if NoNullEntries(t) {
        assert u == s;
      } else {
        var i :| 0 <= i < |s| && !NoNullEntries(s[i]);
        assert u[i] != s[i];
      }
    case _ =>
  }

  lemma StripIdempotent(t: Tree)
    ensures StripNulls(StripNulls(t)) == StripNulls(t)
  {
    StripIsComplete(t);
    StripFixed(StripNulls(t));
  }

  // ---- the three together ----

  /** Nothing is left for any of the three rewrites. */
  predicate Normal(t: Tree) { NoAccountBelow(t) && NoDynamicField(t) && NoNullEntries(t) }

  /** Stripping its null entries would make this object a signature. */
  predicate SignatureUnderNulls(m: map<string, Tree>) {
    && !DecoratedSignature(m)
    && DecoratedSignature(map k | k in m && m[k] != Null :: m[k])
  }

  /** Stripping its null discriminator would make this object an account. */
  predicate AccountUnderNulls(t: Tree) {
    && t.Obj? && "Type" in t.fields && t.fields["Type"] == Null
    && AccountShape(Obj(map k | k in t.fields && k != "Type" :: t.fields[k]))
  }

  /** No object is one null away from a shape the earlier passes look for. */
  predicate NothingUnderNulls(t: Tree) {
    match t
    case Obj(m) => !SignatureUnderNulls(m) && forall k :: k in m ==> !AccountUnderNulls(m[k]) && NothingUnderNulls(m[k])
    case Arr(s) => forall i :: 0 <= i < |s| ==> !AccountUnderNulls(s[i]) && NothingUnderNulls(s[i])
    case _ => true
  }

  lemma BytesThroughStrip(ts: seq<Tree>, us: seq<Tree>)
    requires |us| == |ts| && forall i :: 0 <= i < |ts| ==> us[i] == StripNulls(ts[i])
    ensures AllBytes(us) == AllBytes(ts)
  {
    forall i | 0 <= i < |ts| ensures NumericByte(us[i]) == NumericByte(ts[i]) {
      StripKeeps(ts[i]);
    }
    if AllBytes(us).Some? {
      assert forall i :: 0 <= i < |ts| ==> NumericByte(us[i]).Some?;
      assert AllBytes(us).value == AllBytes(ts).value;
    }
  }

  predicate HasKey(m: map<string, Tree>) {
    && "Ed25519" in m && m["Ed25519"].Arr? && |m["Ed25519"].elems| == KEY_SIZE
    && AllBytes(m["Ed25519"].elems).Some?
  }

  predicate SiblingsFit(m: map<string, Tree>) {
    forall k :: k in m ==> AccountSibling(k, m[k])
  }

  lemma ShapeParts(m: map<string, Tree>)
    ensures AccountShape(Obj(m)) <==> HasKey(m) && SiblingsFit(m)
  {
  }

  lemma KeyThroughStrip(m: map<string, Tree>)
    ensures HasKey(StripNulls(Obj(m)).fields) <==> HasKey(m)
    ensures HasKey(map k | k in m && k != "Type" :: m[k]) <==> HasKey(m)
  {
    var u := StripNulls(Obj(m)).fields;
    if "Ed25519" in m {
      StripKeeps(m["Ed25519"]);
      if m["Ed25519"].Arr? {
        BytesThroughStrip(m["Ed25519"].elems, u["Ed25519"].elems);
      }
    }
  }

  lemma SiblingsThroughStrip(m: map<string, Tree>)
    ensures SiblingsFit(StripNulls(Obj(m)).fields) <==>
      SiblingsFit(m) || ("Type" in m && m["Type"] == Null && SiblingsFit(map k | k in m && k != "Type" :: m[k]))
  {
    var u := StripNulls(Obj(m)).fields;
    forall k | k in m && m[k] != Null ensures AccountSibling(k, u[k]) <==> AccountSibling(k, m[k]) {
      StripKeeps(m[k]);
    }
    NullSiblings(m);
    var w := map k | k in m && k != "Type" :: m[k];
    assert forall k :: k in u <==> k in m && m[k] != Null;
    hide AccountSibling, StripNulls;
    if SiblingsFit(u) {
      assert forall k :: k in m && m[k] != Null ==> AccountSibling(k, u[k]);
      assert forall k :: k in w ==> AccountSibling(k, w[k]);
    }
    if SiblingsFit(w) && "Type" in m && m["Type"] == Null {
      forall k | k in u ensures AccountSibling(k, u[k]) {
        assert k in w;
      }
    }
  }

  /** Stripping creates an account shape exactly where a null discriminator hid one. */
  lemma AccountsThroughStrip(t: Tree)
    ensures AccountShape(StripNulls(t)) <==> AccountShape(t) || AccountUnderNulls(t)
  {
    if t.Obj? {
      var m := t.fields;
      ShapeParts(m);
      ShapeParts(StripNulls(t).fields);
      ShapeParts(map k | k in m && k != "Type" :: m[k]);
      KeyThroughStrip(m);
      SiblingsThroughStrip(m);
      hide AccountShape, StripNulls, HasKey, SiblingsFit;
    }
  }

  lemma NullSiblings(m: map<string, Tree>)
    ensures forall k :: k in m && m[k] == Null && k != "Type" ==> AccountSibling(k, m[k])
    ensures "Type" in m && m["Type"] == Null ==> !AccountSibling("Type", m["Type"])
  {
  }

  lemma SignatureThroughStrip(m: map<string, Tree>)
    ensures DecoratedSignature(StripNulls(Obj(m)).fields) <==> DecoratedSignature(m) || SignatureUnderNulls(m)
  {
    var u := StripNulls(Obj(m)).fields;
    var kept := map k | k in m && m[k] != Null :: m[k];
    assert u.Keys == kept.Keys && |u| == |u.Keys| && |kept| == |kept.Keys|;
    if "Hint" in u && "Signature" in u {
      StripKeeps(m["Hint"]);
      StripKeeps(m["Signature"]);
    }
    assert DecoratedSignature(u) <==> DecoratedSignature(kept);
    if DecoratedSignature(m) {
      TwoKeys(m);
      assert kept == m;
    }
  }

  lemma TwoKeys(m: map<string, Tree>)
    requires DecoratedSignature(m)
    ensures m.Keys == {"Hint", "Signature"}
  {
    assert |m.Keys - {"Hint", "Signature"}| == 0;
  }

  lemma ShapeThroughStrip(k: string, v: Tree)
    ensures DynamicShape(k, StripNulls(v)) <==> DynamicShape(k, v)
  {
    StripKeeps(v);
    if v.Arr? {
      BytesThroughStrip(v.elems, StripNulls(v).elems);
      forall i | 0 <= i < |v.elems| ensures StripNulls(v.elems[i]).Number? <==> v.elems[i].Number? {
        StripKeeps(v.elems[i]);
      }
    }
  }

  predicate NormalField(k: string, v: Tree) { v != Null && !AccountShape(v) && !DynamicShape(k, v) && Normal(v) }

  lemma NormalObject(u: map<string, Tree>)
    ensures Normal(Obj(u)) <==> !DecoratedSignature(u) && forall k :: k in u ==> NormalField(k, u[k])
  {
    hide AccountShape, DynamicShape, DecoratedSignature;
  }

  lemma NormalArray(u: seq<Tree>)
    ensures Normal(Arr(u)) <==> forall i :: 0 <= i < |u| ==> !AccountShape(u[i]) && Normal(u[i])
  {
    hide AccountShape, DynamicShape, DecoratedSignature;
  }

  predicate OpenField(v: Tree) { !AccountUnderNulls(v) && NothingUnderNulls(v) }

  /** Once the first two passes are done, stripping keeps their work exactly when no shape hides under nulls. */
  lemma {:induction false} StripKeepsNormal(d: Tree)
    requires NoAccountBelow(d) && NoDynamicField(d)
    ensures Normal(StripNulls(d)) <==> NothingUnderNulls(d)
    decreases d, 1
  {
    match d
    case Obj(m) => StripKeepsNormalObject(m);
    case Arr(s) =>
      var u := StripNulls(d).elems;
      forall i | 0 <= i < |s| ensures !AccountShape(u[i]) && Normal(u[i]) <==> OpenField(s[i]) {
        StripKeepsNormal(s[i]);
        AccountsThroughStrip(s[i]);
      }
      NormalArray(u);
      hide AccountShape, AccountUnderNulls, StripNulls, Normal;
    case _ =>
  }

  lemma OpenObject(m: map<string, Tree>)
    ensures NothingUnderNulls(Obj(m)) <==> !SignatureUnderNulls(m) && forall k :: k in m ==> OpenField(m[k])
  {
    hide SignatureUnderNulls, AccountUnderNulls;
  }

  predicate SettledField(k: string, v: Tree) {
    !AccountShape(v) && NoAccountBelow(v) && !DynamicShape(k, v) && NoDynamicField(v)
  }

  lemma SettledObject(m: map<string, Tree>)
    requires NoAccountBelow(Obj(m)) && NoDynamicField(Obj(m))
    ensures !DecoratedSignature(m) && forall k :: k in m ==> SettledField(k, m[k])
  {
    hide AccountShape, DynamicShape, DecoratedSignature;
  }

  lemma StripEntries(m: map<string, Tree>)
    ensures var u := StripNulls(Obj(m)).fields;
      forall k :: (k in u <==> k in m && m[k] != Null) && (k in u ==> u[k] == StripNulls(m[k]))
  {
  }

  lemma {:induction false} StripKeepsNormalObject(m: map<string, Tree>)
    requires NoAccountBelow(Obj(m)) && NoDynamicField(Obj(m))
    ensures Normal(StripNulls(Obj(m))) <==> NothingUnderNulls(Obj(m))
    decreases Obj(m), 0
  {
    var u := StripNulls(Obj(m)).fields;
    assert StripNulls(Obj(m)) == Obj(u);
    SettledObject(m);
    SignatureThroughStrip(m);
    NormalObject(u);
    OpenObject(m);
    NothingUnderNull();
    StripEntries(m);
    assert OpenField(Null);
    hide *;
    forall k | k in m ensures k in u ==> (NormalField(k, u[k]) <==> OpenField(m[k])) {
      if m[k] != Null {
        StripKeepsNormalField(k, m[k]);
      }
    }
  }

  lemma {:induction false} StripKeepsNormalField(k: string, v: Tree)
    requires v != Null && SettledField(k, v)
    ensures NormalField(k, StripNulls(v)) <==> OpenField(v)
    decreases v, 2
  {
    StripKeepsNormal(v);
    AccountsThroughStrip(v);
    ShapeThroughStrip(k, v);
    StripKeeps(v);
    hide AccountShape, AccountUnderNulls, DynamicShape, StripNulls, Normal, NoAccountBelow, NoDynamicField;
  }

  lemma NothingUnderNull()
    ensures NothingUnderNulls(Null) && !AccountUnderNulls(Null)
  {
  }

  lemma BytesThroughDynamic(ts: seq<Tree>, us: seq<Tree>, encode: bytes -> string)
    requires |us| == |ts| && forall i :: 0 <= i < |ts| ==> us[i] == DynamicFields(ts[i], encode)
    ensures AllBytes(us) == AllBytes(ts)
  {
    forall i | 0 <= i < |ts| ensures NumericByte(us[i]) == NumericByte(ts[i]) {
      DynamicFieldsKeeps(ts[i], encode);
    }
    if AllBytes(us).Some? {
      assert forall i :: 0 <= i < |ts| ==> NumericByte(us[i]).Some?;
      assert AllBytes(us).value == AllBytes(ts).value;
    }
  }

  lemma SiblingThroughDynamic(k: string, v: Tree, encode: bytes -> string)
    requires AccountSibling(k, DynamicChild(k, v, encode))
    ensures AccountSibling(k, v)
  {
    DynamicChildCases(k, v, encode);
    DynamicFieldsKeeps(v, encode);
    hide DynamicShape;
  }

  lemma KeyThroughDynamic(m: map<string, Tree>, u: map<string, Tree>, encode: bytes -> string)
    requires u.Keys == m.Keys && forall k :: k in m ==> u[k] == DynamicChild(k, m[k], encode)
    requires HasKey(u)
    ensures HasKey(m)
  {
    var key := m["Ed25519"];
    DynamicChildCases("Ed25519", key, encode);
    DynamicFieldsKeeps(key, encode);
    hide DynamicShape, DynamicFields, DynamicChild;
    BytesThroughDynamic(key.elems, u["Ed25519"].elems, encode);
  }

  /** The dynamic-field pass creates no account shape. */
  lemma AccountsThroughDynamic(t: Tree, encode: bytes -> string)
    requires !AccountShape(t)
    ensures !AccountShape(DynamicFields(t, encode))
  {
    if t.Obj? && !DecoratedSignature(t.fields) {
      var m, u := t.fields, DynamicFields(t, encode).fields;
      assert u.Keys == m.Keys && forall k :: k in m ==> u[k] == DynamicChild(k, m[k], encode);
      ShapeParts(m);
      ShapeParts(u);
      hide DynamicFields, DynamicChild, AccountSibling, AccountShape, HasKey;
      if HasKey(u) && SiblingsFit(u) {
        KeyThroughDynamic(m, u, encode);
        forall k | k in m ensures AccountSibling(k, m[k]) {
          assert AccountSibling(k, u[k]);
          SiblingThroughDynamic(k, m[k], encode);
        }
      }
    }
  }

  lemma {:induction false} DynamicKeepsAccountsAway(t: Tree, encode: bytes -> string)
    requires NoAccountBelow(t)
    ensures NoAccountBelow(DynamicFields(t, encode))
  {
    match t
    case Obj(m) =>
      if !DecoratedSignature(m) {
        var u := DynamicFields(t, encode).fields;
        assert u.Keys == m.Keys && forall k :: k in m ==> u[k] == DynamicChild(k, m[k], encode);
        forall k | k in m ensures !AccountShape(u[k]) && NoAccountBelow(u[k]) {
          DynamicChildCases(k, m[k], encode);
          DynamicKeepsAccountsAway(m[k], encode);
          AccountsThroughDynamic(m[k], encode);
        }
      }
    case Arr(s) =>
      forall i | 0 <= i < |s|
        ensures !AccountShape(DynamicFields(s[i], encode)) && NoAccountBelow(DynamicFields(s[i], encode))
      {
        DynamicKeepsAccountsAway(s[i], encode);
        AccountsThroughDynamic(s[i], encode);
      }
    case _ =>
  }

  // ---- the pipeline as one rewrite ----

  lemma NormalizeEntry(m: map<string, Tree>, keys: Strkey, k: string)
    requires Normalize(Obj(m), keys) == Obj(m) && k in m
    ensures !AccountShape(m[k]) && !DynamicShape(k, AccountIDs(m[k], keys.account)) && Normalize(m[k], keys) == m[k]
    ensures !DecoratedSignature(AccountIDs(Obj(m), keys.account).fields) && m[k] != Null
  {
    var a := AccountIDs(Obj(m), keys.account).fields;
    AccountChildCases(m[k], keys.account);
    AccountChildKeeps(m[k], keys.account);
    var d := DynamicFields(Obj(a), keys.contract).fields;
    if DecoratedSignature(a) {
      PlaceholdersStay();
      assert m == SIGNATURE_PLACEHOLDER;
      AccountChildKeeps(m["Hint"], keys.account);
      assert false;
    }
    assert a.Keys == m.Keys && d.Keys == a.Keys && d[k] == DynamicChild(k, a[k], keys.contract);
    DynamicChildCases(k, a[k], keys.contract);
    DynamicFieldsKeeps(a[k], keys.contract);
    StripKeeps(d[k]);
    hide AccountShape, DynamicShape, DecoratedSignature;
    assert d[k] != Null && StripNulls(d[k]) == m[k];
  }

  lemma PlaceholdersStay()
    ensures StripNulls(Obj(SIGNATURE_PLACEHOLDER)) == Obj(SIGNATURE_PLACEHOLDER)
  {
    StripFixed(Obj(SIGNATURE_PLACEHOLDER));
  }

  lemma NormalizeElement(s: seq<Tree>, keys: Strkey, i: nat)
    requires Normalize(Arr(s), keys) == Arr(s) && i < |s|
    ensures !AccountShape(s[i]) && Normalize(s[i], keys) == s[i]
  {
    var a := AccountIDs(Arr(s), keys.account).elems;
    AccountChildCases(s[i], keys.account);
    var d := DynamicFields(Arr(a), keys.contract).elems;
    assert a[i] == AccountChild(s[i], keys.account) && d[i] == DynamicFields(a[i], keys.contract);
    DynamicFieldsKeeps(a[i], keys.contract);
    StripKeeps(d[i]);
    hide AccountShape;
    assert StripNulls(d[i]) == s[i];
  }

  /** The pipeline changes exactly the trees one of its passes would change. */
  lemma {:induction false} NormalizeFixed(t: Tree, keys: Strkey)
    ensures Normalize(t, keys) == t <==> Normal(t)
    decreases t, 1
  {
    if Normal(t) {
      AccountsFixed(t, keys.account);
      DynamicFieldsFixed(t, keys.contract);
      StripFixed(t);
    } else if Normalize(t, keys) == t {
      match t
      case Obj(m) => NormalizeFixedObject(m, keys);
      case Arr(s) => NormalizeFixedArray(s, keys);
      case _ => assert false;
    }
  }

  lemma {:induction false} NormalizeFixedArray(s: seq<Tree>, keys: Strkey)
    requires Normalize(Arr(s), keys) == Arr(s)
    ensures Normal(Arr(s))
    decreases Arr(s), 0
  {
    hide Normalize, AccountIDs, DynamicFields, StripNulls, Normal, AccountShape;
    forall i | 0 <= i < |s| ensures !AccountShape(s[i]) && Normal(s[i]) {
      NormalizeElement(s, keys, i);
      NormalizeFixed(s[i], keys);
    }
    NormalArray(s);
  }

  lemma {:induction false} NormalizeFixedObject(m: map<string, Tree>, keys: Strkey)
    requires Normalize(Obj(m), keys) == Obj(m)
    ensures Normal(Obj(m))
    decreases Obj(m), 0
  {
    var a := AccountIDs(Obj(m), keys.account).fields;
    assert a.Keys == m.Keys && forall k :: k in m ==> a[k] == AccountChild(m[k], keys.account);
    hide Normalize, AccountIDs, DynamicFields, StripNulls, Normal;
    hide AccountShape, DynamicShape, DecoratedSignature, AccountChild;
    forall k | k in m ensures NormalField(k, m[k]) && a[k] == m[k] {
      NormalizeEntry(m, keys, k);
      NormalizeFixed(m[k], keys);
      NormalHasNoAccounts(m[k]);
      AccountsFixed(m[k], keys.account);
      AccountChildCases(m[k], keys.account);
    }
    assert a == m;
    if m.Keys != {} {
      var k :| k in m;
      NormalizeEntry(m, keys, k);
    } else {
      EmptyIsNoSignature(m);
    }
    NormalObject(m);
  }

  lemma NormalHasNoAccounts(t: Tree)
    requires Normal(t)
    ensures NoAccountBelow(t)
  {
  }

  lemma EmptyIsNoSignature(m: map<string, Tree>)
    requires m.Keys == {}
    ensures !DecoratedSignature(m)
  {
  }

  /** Running the pipeline twice equals running it once exactly when the last pass keeps what the others did. */
  lemma TwiceThroughPasses(t: Tree, keys: Strkey)
    ensures Normalize(Normalize(t, keys), keys) == Normalize(t, keys)
       <==> NothingUnderNulls(DynamicFields(AccountIDs(t, keys.account), keys.contract))
  {
    var a := AccountIDs(t, keys.account);
    AccountsAreComplete(t, keys.account);
    var d := DynamicFields(a, keys.contract);
    DynamicFieldsAreComplete(a, keys.contract);
    DynamicKeepsAccountsAway(a, keys.contract);
    StripKeepsNormal(d);
    NormalizeFixed(StripNulls(d), keys);
  }
}
