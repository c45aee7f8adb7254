/**
 Which differences between two trees each pass hides, said on the trees that go in: how an
 account is shown, the run-local values, null entries, and no others.
 */
module JsonNoise {
  import opened Base
  import opened JsonTree
  import opened JsonNormal

  /** A signature, or what a signature is rewritten to. */
  predicate AnySignature(m: map<string, Tree>) { DecoratedSignature(m) || m == SIGNATURE_PLACEHOLDER }

  /** A value that varies from run to run at this key, or the placeholder it is rewritten to. */
  predicate Noise(k: string, v: Tree) {
    PlaceholderOf(k).Some? && (WellShaped(k, v) || v == Str(PlaceholderOf(k).value))
  }

  predicate ContractBytes(k: string, v: Tree) {
    k == "ContractId" && ThirtyTwoNumbers(v) && AllBytes(v.elems).Some?
  }

  /** The text a contract id is shown as. */
  function Shown(v: Tree, encode: bytes -> string): Option<string> {
    match TryEncodeStrkey(v, encode)
    case Some(s) => Some(s)
    case None => if v.Str? then Some(v.text) else None
  }

  predicate SameField(k: string, v: Tree, w: Tree, encode: bytes -> string)
    decreases v, 1
  {
    if Noise(k, v) || Noise(k, w) then Noise(k, v) && Noise(k, w)
    else if ContractBytes(k, v) || ContractBytes(k, w) then Shown(v, encode) == Shown(w, encode)
    else SameButForNoise(v, w, encode)
  }

  /**
   Equal trees, except that signatures may differ from signatures, run-local numbers and
   hashes from each other at the same key, and contract ids may be bytes or their text.
   */
  predicate SameButForNoise(t: Tree, u: Tree, encode: bytes -> string)
    decreases t, 0
  {
    match (t, u)
    case (Obj(m), Obj(n)) =>
      if AnySignature(m) || AnySignature(n) then AnySignature(m) && AnySignature(n)
      else m.Keys == n.Keys && forall k :: k in m && k in n ==> SameField(k, m[k], n[k], encode)
    case (Arr(s), Arr(r)) => |s| == |r| && forall i :: 0 <= i < |s| && i < |r| ==> SameButForNoise(s[i], r[i], encode)
    case _ => t == u
  }

  lemma SignaturePlaceholder(m: map<string, Tree>, encode: bytes -> string)
    ensures AnySignature(m) <==> DynamicFields(Obj(m), encode) == Obj(SIGNATURE_PLACEHOLDER)
  {
    var u := DynamicFields(Obj(m), encode).fields;
    if !DecoratedSignature(m) {
      assert u.Keys == m.Keys && forall k :: k in m ==> u[k] == DynamicChild(k, m[k], encode);
      HintAndSignatureKept(m, encode);
      hide DynamicFields, DynamicChild, DecoratedSignature;
      PlaceholderEntries(m);
      PlaceholderEntries(u);
    }
  }

  lemma PlaceholderEntries(m: map<string, Tree>)
    ensures m == SIGNATURE_PLACEHOLDER <==>
      m.Keys == {"Hint", "Signature"} && m["Hint"] == Str("$hint") && m["Signature"] == Str("$signature")
  {
  }

  /** At the two keys of a signature a string stays, and nothing else becomes one. */
  lemma HintAndSignatureKept(m: map<string, Tree>, encode: bytes -> string)
    ensures forall k, s :: k in m && (k == "Hint" || k == "Signature") ==>
      (DynamicChild(k, m[k], encode) == Str(s) <==> m[k] == Str(s))
  {
    forall k, s | k in m && (k == "Hint" || k == "Signature")
      ensures DynamicChild(k, m[k], encode) == Str(s) <==> m[k] == Str(s)
    {
      DynamicChildCases(k, m[k], encode);
      DynamicFieldsKeeps(m[k], encode);
    }
  }

  /** One field: the rewritten values are equal exactly when the values are the same but for noise. */
  lemma {:induction false} FieldAgrees(k: string, v: Tree, w: Tree, encode: bytes -> string)
    requires SameButForNoise(v, w, encode) <==> DynamicFields(v, encode) == DynamicFields(w, encode)
    ensures SameField(k, v, w, encode) <==> DynamicChild(k, v, encode) == DynamicChild(k, w, encode)
  {
    DynamicFieldsKeeps(v, encode);
    DynamicFieldsKeeps(w, encode);
    FieldCases(k, v, encode);
    FieldCases(k, w, encode);
    NoiseIsNoContract(k, v);
    NoiseIsNoContract(k, w);
    hide DynamicFields, DynamicChild, Noise, ContractBytes, SameButForNoise, TryEncodeStrkey;
  }

  /** What a field's value is rewritten to. */
  lemma FieldCases(k: string, v: Tree, encode: bytes -> string)
    ensures PlaceholderOf(k).Some? ==> (Noise(k, v) <==> DynamicChild(k, v, encode) == Str(PlaceholderOf(k).value))
    ensures PlaceholderOf(k).None? ==> !Noise(k, v)
    ensures ContractBytes(k, v) ==> Shown(v, encode).Some? && DynamicChild(k, v, encode) == Str(Shown(v, encode).value)
    ensures !Noise(k, v) && !ContractBytes(k, v) ==> DynamicChild(k, v, encode) == DynamicFields(v, encode)
    ensures k == "ContractId" && !ContractBytes(k, v) ==> TryEncodeStrkey(v, encode).None?
  {
    DynamicFieldsKeeps(v, encode);
    hide DynamicFields;
  }

  lemma NoiseIsNoContract(k: string, v: Tree)
    ensures PlaceholderOf(k).Some? ==> !ContractBytes(k, v)
    ensures ContractBytes(k, v) ==> k == "ContractId"
  {
  }

  /** The pass makes two trees equal exactly when they are the same but for noise. */
  lemma {:induction false} OnlyNoiseIsHidden(t: Tree, u: Tree, encode: bytes -> string)
    ensures DynamicFields(t, encode) == DynamicFields(u, encode) <==> SameButForNoise(t, u, encode)
    decreases t, 1
  {
    DynamicFieldsKeeps(t, encode);
    DynamicFieldsKeeps(u, encode);
    match (t, u)
    case (Obj(m), Obj(n)) => OnlyNoiseIsHiddenInObject(m, n, encode);
    case (Arr(s), Arr(r)) =>
      var a, b := DynamicFields(t, encode).elems, DynamicFields(u, encode).elems;
      if |s| == |r| {
        forall i | 0 <= i < |s| ensures a[i] == b[i] <==> SameButForNoise(s[i], r[i], encode) {
          OnlyNoiseIsHidden(s[i], r[i], encode);
        }
        assert a == b <==> forall i :: 0 <= i < |s| ==> SameButForNoise(s[i], r[i], encode);
      }
    case _ =>
  }

  lemma {:induction false} OnlyNoiseIsHiddenInObject(m: map<string, Tree>, n: map<string, Tree>,
      encode: bytes -> string)
    ensures DynamicFields(Obj(m), encode) == DynamicFields(Obj(n), encode) <==> SameButForNoise(Obj(m), Obj(n), encode)
    decreases Obj(m), 0
  {
    SignaturePlaceholder(m, encode);
    SignaturePlaceholder(n, encode);
    if !AnySignature(m) && !AnySignature(n) {
      var a, b := DynamicFields(Obj(m), encode).fields, DynamicFields(Obj(n), encode).fields;
      assert a.Keys == m.Keys && forall k :: k in m ==> a[k] == DynamicChild(k, m[k], encode);
      assert b.Keys == n.Keys && forall k :: k in n ==> b[k] == DynamicChild(k, n[k], encode);
      if m.Keys == n.Keys {
        forall k | k in m ensures a[k] == b[k] <==> SameField(k, m[k], n[k], encode) {
          OnlyNoiseIsHidden(m[k], n[k], encode);
          FieldAgrees(k, m[k], n[k], encode);
        }
        hide DynamicFields, DynamicChild, SameField, AnySignature;
        assert a == b <==> forall k :: k in m ==> a[k] == b[k];
      }
    }
  }

  /** With an encoding that tells keys apart, two contract ids pass for the same only with the same bytes. */
  lemma ContractsStayApart(v: Tree, w: Tree, encode: bytes -> string)
    requires forall a: bytes, b: bytes :: |a| == KEY_SIZE && |b| == KEY_SIZE && encode(a) == encode(b) ==> a == b
    requires ContractBytes("ContractId", v) && ContractBytes("ContractId", w)
    ensures SameField("ContractId", v, w, encode) <==> AllBytes(v.elems) == AllBytes(w.elems)
  {
    NoiseIsNoContract("ContractId", v);
    FieldCases("ContractId", v, encode);
    FieldCases("ContractId", w, encode);
    hide AllBytes, Noise;
  }

  /** A contract id becomes the encoding of its own 32 bytes, in order. */
  lemma ContractsAreEncoded(v: Tree, key: bytes, encode: bytes -> string)
    requires ThirtyTwoNumbers(v) && |key| == KEY_SIZE
    requires forall i :: 0 <= i < KEY_SIZE ==> NumericByte(v.elems[i]) == Some(key[i])
    ensures DynamicFields(Obj(map["ContractId" := v]), encode) == Obj(map["ContractId" := Str(encode(key))])
  {
    assert AllBytes(v.elems).value == key;
    OneField("ContractId", v, encode);
  }

  lemma OneField(k: string, v: Tree, encode: bytes -> string)
    ensures DynamicFields(Obj(map[k := v]), encode) == Obj(map[k := DynamicChild(k, v, encode)])
  {
    var r := DynamicFields(Obj(map[k := v]), encode).fields;
    assert "Hint" in map[k := v] && "Signature" in map[k := v] ==> false;
    assert r == map[k := DynamicChild(k, v, encode)];
  }

  /** The text each run-local value is shown as; a value of another shape under the same key stays. */
  lemma Placeholders(k: string, v: Tree, encode: bytes -> string)
    requires k != "ContractId"
    ensures DynamicFields(Obj(map[k := v]), encode) == Obj(map[k :=
      if k == "SeqNum" && v.Number? then Str("$seqNum")
      else if k == "BumpTo" && v.Number? then Str("$bumpTo")
      else if k == "OfferId" && v.Number? then Str("$offerId")
      else if k == "TransactionHash" && ThirtyTwoNumbers(v) then Str("$innerTransactionHash")
      else DynamicFields(v, encode)])
  {
    OneField(k, v, encode);
    hide DynamicFields, ThirtyTwoNumbers;
  }

  /** Two keys, four entries under Hint and a non-empty Signature; any other object is no signature. */
  lemma SignatureText(hint: Tree, signature: Tree, encode: bytes -> string)
    ensures hint.Arr? && |hint.elems| == HINT_SIZE && signature.Str? && signature.text != "" ==>
      DynamicFields(Obj(map["Hint" := hint, "Signature" := signature]), encode)
        == Obj(map["Hint" := Str("$hint"), "Signature" := Str("$signature")])
  {
    var m := map["Hint" := hint, "Signature" := signature];
    assert m.Keys == {"Hint", "Signature"};
    assert |m| == |m.Keys|;
  }

  // ---- the account pass ----

  /** An account whose 32 numbers are, cut to a byte each, this key. */
  predicate AccountOf(v: Tree, key: bytes) {
    && AccountShape(v) && |key| == KEY_SIZE
    && forall i :: 0 <= i < KEY_SIZE ==> NumericByte(v.fields["Ed25519"].elems[i]) == Some(key[i])
  }

  /** This text, or an account whose key is encoded as this text. */
  ghost predicate ShownAs(v: Tree, text: string, encode: bytes -> string) {
    v == Str(text) || exists key :: AccountOf(v, key) && encode(key) == text
  }

  ghost predicate SameChild(v: Tree, w: Tree, encode: bytes -> string)
    decreases v, 1
  {
    if AccountShape(v) || AccountShape(w) then exists text :: ShownAs(v, text, encode) && ShownAs(w, text, encode)
    else SameButForAccounts(v, w, encode)
  }

  /** Equal trees, except that below the root accounts may stand for their encoding. */
  ghost predicate SameButForAccounts(t: Tree, u: Tree, encode: bytes -> string)
    decreases t, 0
  {
    match (t, u)
    case (Obj(m), Obj(n)) => m.Keys == n.Keys && forall k :: k in m && k in n ==> SameChild(m[k], n[k], encode)
    case (Arr(s), Arr(r)) => |s| == |r| && forall i :: 0 <= i < |s| && i < |r| ==> SameChild(s[i], r[i], encode)
    case _ => t == u
  }

  lemma AccountHasOneKey(v: Tree)
    requires AccountShape(v)
    ensures exists key :: AccountOf(v, key)
    ensures forall a, b :: AccountOf(v, a) && AccountOf(v, b) ==> a == b
  {
    assert AccountOf(v, AllBytes(v.fields["Ed25519"].elems).value);
    forall a, b | AccountOf(v, a) && AccountOf(v, b) ensures a == b {
      forall i | 0 <= i < KEY_SIZE ensures a[i] == b[i] {
        assert NumericByte(v.fields["Ed25519"].elems[i]) == Some(a[i]);
      }
    }
  }

  /** Below the root an account becomes the encoding of its own key, in order. */
  lemma AccountsAreEncoded(v: Tree, key: bytes, encode: bytes -> string)
    requires AccountOf(v, key)
    ensures AccountIDs(Arr([v]), encode) == Arr([Str(encode(key))])
    ensures forall k: string :: AccountIDs(Obj(map[k := v]), encode) == Obj(map[k := Str(encode(key))])
  {
    AccountChildIsShown(v, encode);
    AccountHasOneKey(v);
    forall k: string ensures AccountIDs(Obj(map[k := v]), encode) == Obj(map[k := Str(encode(key))]) {
      var r := AccountIDs(Obj(map[k := v]), encode).fields;
      assert r == map[k := AccountChild(v, encode)];
    }
  }

  /** The objects that stand for an account key, and some near them that do not. */
  lemma AccountPatterns(elems: seq<Tree>, other: Tree)
    requires |elems| == KEY_SIZE && forall i :: 0 <= i < KEY_SIZE ==> NumericByte(elems[i]).Some?
    ensures AccountShape(Obj(map["Ed25519" := Arr(elems)]))
    ensures AccountShape(Obj(map["Type" := other, "Ed25519" := Arr(elems)])) <==> NumericByte(other) == Some(0)
    ensures AccountShape(Obj(map["Ed25519" := Arr(elems), "Med25519" := other])) <==> other == Null
    ensures !AccountShape(Obj(map["Ed25519" := Arr(elems + [other])]))
  {
    var zero, unset := map["Type" := other, "Ed25519" := Arr(elems)], map["Ed25519" := Arr(elems), "Med25519" := other];
    assert zero.Keys == {"Type", "Ed25519"} && unset.Keys == {"Ed25519", "Med25519"};
    assert AccountSibling("Type", zero["Type"]) <==> NumericByte(other) == Some(0);
    assert AccountSibling("Med25519", unset["Med25519"]) <==> other == Null;
    hide AllBytes;
  }

  lemma AccountChildIsShown(v: Tree, encode: bytes -> string)
    ensures AccountShape(v) ==> exists key :: AccountOf(v, key) && AccountChild(v, encode) == Str(encode(key))
    ensures !AccountShape(v) ==> AccountChild(v, encode) == AccountIDs(v, encode)
  {
    if AccountShape(v) {
      var key := AllBytes(v.fields["Ed25519"].elems).value;
      assert AccountOf(v, key);
    }
  }

  /** A child is rewritten to a text exactly when it is shown as that text. */
  lemma ShownExactly(v: Tree, text: string, encode: bytes -> string)
    ensures ShownAs(v, text, encode) <==> AccountChild(v, encode) == Str(text)
  {
    AccountChildIsShown(v, encode);
    if AccountShape(v) {
      AccountHasOneKey(v);
    }
    hide AccountShape, AccountOf, AccountChild;
  }

  lemma ChildrenAgree(v: Tree, w: Tree, encode: bytes -> string)
    requires SameButForAccounts(v, w, encode) <==> AccountIDs(v, encode) == AccountIDs(w, encode)
    ensures SameChild(v, w, encode) <==> AccountChild(v, encode) == AccountChild(w, encode)
  {
    hide SameButForAccounts, ShownAs, AccountShape, AccountIDs;
    AccountChildIsShown(v, encode);
    AccountChildIsShown(w, encode);
    forall text
      ensures ShownAs(v, text, encode) <==> AccountChild(v, encode) == Str(text)
      ensures ShownAs(w, text, encode) <==> AccountChild(w, encode) == Str(text)
    {
      ShownExactly(v, text, encode);
      ShownExactly(w, text, encode);
    }
    hide AccountChild, AccountOf;
    if AccountShape(v) || AccountShape(w) {
      if AccountChild(v, encode) == AccountChild(w, encode) {
        var text := AccountChild(v, encode).text;
        assert ShownAs(v, text, encode) && ShownAs(w, text, encode);
      }
    }
  }

  /** The account pass makes two trees equal exactly when they differ only in how accounts are shown. */
  lemma {:induction false} OnlyAccountsAreHidden(t: Tree, u: Tree, encode: bytes -> string)
    ensures AccountIDs(t, encode) == AccountIDs(u, encode) <==> SameButForAccounts(t, u, encode)
    decreases t, 0
  {
    match (t, u)
    case (Obj(m), Obj(n)) =>
      forall k | k in m && k in n
        ensures AccountChild(m[k], encode) == AccountChild(n[k], encode) <==> SameChild(m[k], n[k], encode)
      {
        ChildIsHidden(m[k], n[k], encode);
      }
      hide AccountChild, SameChild;
      EqualObjects(m, n, encode);
    case (Arr(s), Arr(r)) =>
      forall i | 0 <= i < |s| && i < |r|
        ensures AccountChild(s[i], encode) == AccountChild(r[i], encode) <==> SameChild(s[i], r[i], encode)
      {
        ChildIsHidden(s[i], r[i], encode);
      }
      hide AccountChild, SameChild;
      EqualArrays(s, r, encode);
    case _ =>
  }

  lemma EqualObjects(m: map<string, Tree>, n: map<string, Tree>, encode: bytes -> string)
    ensures AccountIDs(Obj(m), encode) == AccountIDs(Obj(n), encode) <==>
      m.Keys == n.Keys && forall k :: k in m && k in n ==> AccountChild(m[k], encode) == AccountChild(n[k], encode)
  {
    hide AccountChild;
    var a, b := AccountIDs(Obj(m), encode).fields, AccountIDs(Obj(n), encode).fields;
    assert a.Keys == m.Keys && forall k :: k in m ==> a[k] == AccountChild(m[k], encode);
    assert b.Keys == n.Keys && forall k :: k in n ==> b[k] == AccountChild(n[k], encode);
    assert a == b <==> a.Keys == b.Keys && forall k :: k in a && k in b ==> a[k] == b[k];
  }

  lemma EqualArrays(s: seq<Tree>, r: seq<Tree>, encode: bytes -> string)
    ensures AccountIDs(Arr(s), encode) == AccountIDs(Arr(r), encode) <==>
      |s| == |r| && forall i :: 0 <= i < |s| && i < |r| ==> AccountChild(s[i], encode) == AccountChild(r[i], encode)
  {
    hide AccountChild;
    var a, b := AccountIDs(Arr(s), encode).elems, AccountIDs(Arr(r), encode).elems;
    assert |a| == |s| && forall i :: 0 <= i < |s| ==> a[i] == AccountChild(s[i], encode);
    assert |b| == |r| && forall i :: 0 <= i < |r| ==> b[i] == AccountChild(r[i], encode);
    assert a == b <==> |a| == |b| && forall i :: 0 <= i < |a| ==> a[i] == b[i];
  }

  lemma {:induction false} ChildIsHidden(v: Tree, w: Tree, encode: bytes -> string)
    ensures AccountChild(v, encode) == AccountChild(w, encode) <==> SameChild(v, w, encode)
    decreases v, 1
  {
    OnlyAccountsAreHidden(v, w, encode);
    ChildrenAgree(v, w, encode);
  }

  /** With an encoding that tells keys apart, two accounts pass for the same only with the same 32 bytes. */
  lemma AccountsStayApart(v: Tree, w: Tree, encode: bytes -> string)
    requires forall a: bytes, b: bytes :: |a| == KEY_SIZE && |b| == KEY_SIZE && encode(a) == encode(b) ==> a == b
    requires AccountShape(v) && AccountShape(w)
    ensures SameChild(v, w, encode) <==>
      forall i :: 0 <= i < KEY_SIZE ==>
        NumericByte(v.fields["Ed25519"].elems[i]) == NumericByte(w.fields["Ed25519"].elems[i])
  {
    AccountHasOneKey(v);
    AccountHasOneKey(w);
    var a :| AccountOf(v, a);
    var b :| AccountOf(w, b);
    assert a == b <==> forall i :: 0 <= i < KEY_SIZE ==> Some(a[i]) == Some(b[i]);
    assert ShownAs(v, encode(a), encode);
    hide AccountShape;
  }

  // ---- the null pass ----

  /** Equal trees, except for null entries of objects. */
  predicate SameButForNulls(t: Tree, u: Tree) {
    match (t, u)
    case (Obj(m), Obj(n)) =>
      && (forall k :: k in m && m[k] != Null ==> k in n && n[k] != Null && SameButForNulls(m[k], n[k]))
      && (forall k :: k in n && n[k] != Null ==> k in m && m[k] != Null)
    case (Arr(s), Arr(r)) => |s| == |r| && forall i :: 0 <= i < |s| && i < |r| ==> SameButForNulls(s[i], r[i])
    case _ => t == u
  }

  lemma StrippedEntries(m: map<string, Tree>)
    ensures var a := StripNulls(Obj(m)).fields;
      forall k :: (k in a <==> k in m && m[k] != Null) && (k in a ==> a[k] == StripNulls(m[k]))
  {
  }

  lemma NullsByEntry(m: map<string, Tree>, n: map<string, Tree>)
    ensures SameButForNulls(Obj(m), Obj(n)) <==>
      && (forall k :: (k in m && m[k] != Null) <==> (k in n && n[k] != Null))
      && (forall k :: k in m && k in n && m[k] != Null && n[k] != Null ==> SameButForNulls(m[k], n[k]))
  {
  }

  /** The null pass makes two trees equal exactly when they differ in null entries only. */
  lemma {:induction false} OnlyNullsAreHidden(t: Tree, u: Tree)
    ensures StripNulls(t) == StripNulls(u) <==> SameButForNulls(t, u)
  {
    match (t, u)
    case (Obj(m), Obj(n)) =>
      var a, b := StripNulls(t).fields, StripNulls(u).fields;
      StrippedEntries(m);
      StrippedEntries(n);
      hide StripNulls;
      forall k | k in a && k in b ensures a[k] == b[k] <==> SameButForNulls(m[k], n[k]) {
        OnlyNullsAreHidden(m[k], n[k]);
      }
      NullsByEntry(m, n);
      hide SameButForNulls;
      assert a == b <==> a.Keys == b.Keys && forall k :: k in a && k in b ==> a[k] == b[k];
    case (Arr(s), Arr(r)) =>
      var a, b := StripNulls(t).elems, StripNulls(u).elems;
      if |s| == |r| {
        forall i | 0 <= i < |s| ensures a[i] == b[i] <==> SameButForNulls(s[i], r[i]) {
          OnlyNullsAreHidden(s[i], r[i]);
        }
        assert a == b <==> forall i :: 0 <= i < |s| ==> a[i] == b[i];
      }
    case _ =>
  }
}
