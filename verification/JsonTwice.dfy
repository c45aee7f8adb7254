/**
 When one run of the normaliser is enough: the exact condition, on the tree that goes in, under
 which running it a second time changes nothing.
 */
module JsonTwice {
  import opened Base
  import opened JsonTree
  import opened JsonNormal

  /** A text, or an account that the first pass turns into one. */
  predicate SpellsText(v: Tree, encode: bytes -> string) {
    match TryEncodeAccountID(v, encode)
    case Some(s) => s != ""
    case None => v.Str? && v.text != ""
  }

  /** A signature, as it stands or with an account in place of its text. */
  predicate SpelledSignature(m: map<string, Tree>, encode: bytes -> string) {
    && |m| == 2
    && "Hint" in m && m["Hint"].Arr? && |m["Hint"].elems| == HINT_SIZE
    && "Signature" in m && SpellsText(m["Signature"], encode)
  }

  function WithoutNulls(m: map<string, Tree>): map<string, Tree> { map k | k in m && m[k] != Null :: m[k] }

  /**
   No object that the first two passes leave in place becomes a signature by losing its null
   entries, or an account by losing its null discriminator.
   */
  predicate OneRunIsEnough(t: Tree, encode: bytes -> string)
    decreases t, 0
  {
    match t
    case Obj(m) =>
      SpelledSignature(m, encode)
      || (!SpelledSignature(WithoutNulls(m), encode) && forall k :: k in m ==> FieldIsEnough(k, m[k], encode))
    case Arr(s) =>
      forall i :: 0 <= i < |s| ==> AccountShape(s[i]) || (!AccountUnderNulls(s[i]) && OneRunIsEnough(s[i], encode))
    case _ => true
  }

  /** The same for a field, unless the first two passes replace it by a text. */
  predicate FieldIsEnough(k: string, v: Tree, encode: bytes -> string)
    decreases v, 1
  {
    AccountShape(v) || DynamicShape(k, v) || (!AccountUnderNulls(v) && OneRunIsEnough(v, encode))
  }

  /** The tree before nulls are stripped. */
  function Rewritten(t: Tree, keys: Strkey): Tree {
    DynamicFields(AccountIDs(t, keys.account), keys.contract)
  }

  function RewrittenField(k: string, v: Tree, keys: Strkey): Tree {
    DynamicChild(k, AccountChild(v, keys.account), keys.contract)
  }

  // ---- what the first two passes make of a field ----

  lemma NumbersThroughAccounts(v: Tree, encode: bytes -> string)
    requires v.Arr?
    ensures AccountIDs(v, encode).Arr? && |AccountIDs(v, encode).elems| == |v.elems|
    ensures ThirtyTwoNumbers(AccountIDs(v, encode)) <==> ThirtyTwoNumbers(v)
    ensures AllBytes(AccountIDs(v, encode).elems) == AllBytes(v.elems)
  {
    var w := AccountIDs(v, encode);
    forall i | 0 <= i < |v.elems| ensures w.elems[i].Number? <==> v.elems[i].Number? {
      AccountChildKeeps(v.elems[i], encode);
    }
    BytesNotCreated(v.elems, w.elems, encode);
    hide AccountIDs, AllBytes;
  }

  lemma DynamicShapeThroughAccounts(k: string, v: Tree, encode: bytes -> string)
    ensures DynamicShape(k, AccountIDs(v, encode)) <==> DynamicShape(k, v)
  {
    if v.Arr? {
      NumbersThroughAccounts(v, encode);
      hide AccountIDs, AllBytes;
    }
  }

  lemma FieldCases(k: string, v: Tree, keys: Strkey)
    ensures AccountShape(v) || DynamicShape(k, v) ==> RewrittenField(k, v, keys).Str?
    ensures !AccountShape(v) && !DynamicShape(k, v) ==> RewrittenField(k, v, keys) == Rewritten(v, keys)
  {
    AccountChildCases(v, keys.account);
    DynamicShapeThroughAccounts(k, v, keys.account);
    DynamicChildCases(k, AccountChild(v, keys.account), keys.contract);
    if AccountShape(v) {
      StringsHaveNoShape(k, AccountChild(v, keys.account).text);
    }
    hide AccountShape, DynamicShape, AccountIDs;
  }

  lemma NullsStay(k: string, v: Tree, keys: Strkey)
    ensures RewrittenField(k, v, keys) == Null <==> v == Null
  {
    AccountChildKeeps(v, keys.account);
    DynamicChildCases(k, AccountChild(v, keys.account), keys.contract);
    DynamicFieldsKeeps(AccountChild(v, keys.account), keys.contract);
    hide AccountChild, DynamicShape, DynamicFields;
  }

  // ---- signatures ----

  lemma TextThroughAccounts(v: Tree, encode: bytes -> string)
    ensures SpellsText(v, encode) <==> AccountChild(v, encode).Str? && AccountChild(v, encode).text != ""
  {
    AccountChildCases(v, encode);
    hide AccountShape;
  }

  /** The account pass makes a signature exactly of what spells one. */
  lemma SignatureThroughAccounts(m: map<string, Tree>, encode: bytes -> string)
    ensures DecoratedSignature(AccountIDs(Obj(m), encode).fields) <==> SpelledSignature(m, encode)
  {
    var a := AccountIDs(Obj(m), encode).fields;
    assert a.Keys == m.Keys && |a| == |a.Keys| && |m| == |m.Keys|;
    if "Hint" in m && "Signature" in m {
      assert a["Hint"] == AccountChild(m["Hint"], encode) && a["Signature"] == AccountChild(m["Signature"], encode);
      AccountChildKeeps(m["Hint"], encode);
      TextThroughAccounts(m["Signature"], encode);
    }
    hide AccountIDs, AccountChild, SpellsText;
  }

  lemma SignatureFields(m: map<string, Tree>, d: map<string, Tree>, keys: Strkey)
    requires d.Keys == m.Keys && forall k :: k in m ==> d[k] == RewrittenField(k, m[k], keys)
    ensures "Hint" in m ==>
      (d["Hint"].Arr? <==> m["Hint"].Arr?) && (m["Hint"].Arr? ==> |d["Hint"].elems| == |m["Hint"].elems|)
    ensures "Signature" in m ==>
      (d["Signature"].Str? && d["Signature"].text != "" <==> SpellsText(m["Signature"], keys.account))
  {
    if "Hint" in m {
      var v := AccountChild(m["Hint"], keys.account);
      AccountChildKeeps(m["Hint"], keys.account);
      assert !DynamicShape("Hint", v);
      DynamicChildCases("Hint", v, keys.contract);
      DynamicFieldsKeeps(v, keys.contract);
    }
    if "Signature" in m {
      var v := AccountChild(m["Signature"], keys.account);
      TextThroughAccounts(m["Signature"], keys.account);
      assert !DynamicShape("Signature", v);
      DynamicChildCases("Signature", v, keys.contract);
      DynamicFieldsKeeps(v, keys.contract);
    }
  }

  /** Nulls hide a signature after the first two passes exactly where they hide a spelled one before. */
  lemma SignatureUnderNullsThrough(m: map<string, Tree>, d: map<string, Tree>, keys: Strkey)
    requires d.Keys == m.Keys && forall k :: k in m ==> d[k] == RewrittenField(k, m[k], keys)
    ensures DecoratedSignature(WithoutNulls(d)) <==> SpelledSignature(WithoutNulls(m), keys.account)
  {
    SignatureFields(m, d, keys);
    forall k | k in m ensures d[k] == Null <==> m[k] == Null {
      NullsStay(k, m[k], keys);
    }
    hide RewrittenField, SpellsText;
    var u, w := WithoutNulls(m), WithoutNulls(d);
    assert u.Keys == w.Keys && |u| == |u.Keys| && |w| == |w.Keys|;
    if "Hint" in u && "Signature" in u {
      assert u["Hint"] == m["Hint"] && w["Hint"] == d["Hint"];
      assert u["Signature"] == m["Signature"] && w["Signature"] == d["Signature"];
      assert SpellsText(u["Signature"], keys.account) <==> w["Signature"].Str? && w["Signature"].text != "";
    }
  }

  // ---- accounts ----

  lemma KeyThroughBoth(m: map<string, Tree>, d: map<string, Tree>, keys: Strkey)
    requires d.Keys == m.Keys && forall k :: k in m ==> d[k] == RewrittenField(k, m[k], keys)
    ensures HasKey(d) <==> HasKey(m)
  {
    if "Ed25519" in m {
      var key := m["Ed25519"];
      var v := AccountChild(key, keys.account);
      AccountChildKeeps(key, keys.account);
      assert !DynamicShape("Ed25519", v);
      DynamicChildCases("Ed25519", v, keys.contract);
      DynamicFieldsKeeps(v, keys.contract);
      hide DynamicShape, DynamicFields, AccountChild;
      if key.Arr? {
        BytesNotCreated(key.elems, v.elems, keys.account);
        BytesThroughDynamic(v.elems, d["Ed25519"].elems, keys.contract);
      }
    }
  }

  lemma SiblingsThroughBoth(m: map<string, Tree>, d: map<string, Tree>, keys: Strkey)
    requires d.Keys == m.Keys && forall k :: k in m ==> d[k] == RewrittenField(k, m[k], keys)
    ensures SiblingsFit(map k | k in d && k != "Type" :: d[k]) <==> SiblingsFit(map k | k in m && k != "Type" :: m[k])
  {
    forall k | k in m && k != "Type" ensures AccountSibling(k, d[k]) <==> AccountSibling(k, m[k]) {
      NullsStay(k, m[k], keys);
    }
    hide RewrittenField, AccountSibling;
    var u, w := map k | k in m && k != "Type" :: m[k], map k | k in d && k != "Type" :: d[k];
    assert forall k :: k in u ==> (AccountSibling(k, w[k]) <==> AccountSibling(k, u[k]));
    assert u.Keys == w.Keys;
  }

  lemma AccountUnderNullsOfFields(m: map<string, Tree>, d: map<string, Tree>, keys: Strkey)
    requires d.Keys == m.Keys && forall k :: k in m ==> d[k] == RewrittenField(k, m[k], keys)
    ensures AccountUnderNulls(Obj(d)) <==> AccountUnderNulls(Obj(m))
  {
    if "Type" in m {
      NullsStay("Type", m["Type"], keys);
    }
    KeyThroughBoth(m, d, keys);
    SiblingsThroughBoth(m, d, keys);
    KeyThroughStrip(m);
    KeyThroughStrip(d);
    ShapeParts(map k | k in m && k != "Type" :: m[k]);
    ShapeParts(map k | k in d && k != "Type" :: d[k]);
    hide HasKey, SiblingsFit, AccountShape, RewrittenField;
  }

  /** The fields of an object that the first two passes do not replace whole. */
  lemma RewrittenFields(m: map<string, Tree>, keys: Strkey)
    requires !SpelledSignature(m, keys.account)
    ensures Rewritten(Obj(m), keys).Obj?
    ensures var d := Rewritten(Obj(m), keys).fields;
      d.Keys == m.Keys && forall k :: k in m ==> d[k] == RewrittenField(k, m[k], keys)
  {
    SignatureThroughAccounts(m, keys.account);
    var a := AccountIDs(Obj(m), keys.account).fields;
    assert a.Keys == m.Keys && forall k :: k in m ==> a[k] == AccountChild(m[k], keys.account);
    hide AccountChild, DynamicChild, DecoratedSignature, SpelledSignature;
  }

  lemma AccountUnderNullsThrough(v: Tree, keys: Strkey)
    ensures AccountUnderNulls(Rewritten(v, keys)) <==> AccountUnderNulls(v)
  {
    AccountKind(v, keys);
    if v.Obj? {
      if SpelledSignature(v.fields, keys.account) {
        SignatureThroughAccounts(v.fields, keys.account);
        SignatureIsNoAccount(v.fields, keys.account);
        assert Rewritten(v, keys) == Obj(SIGNATURE_PLACEHOLDER);
      } else {
        RewrittenFields(v.fields, keys);
        hide Rewritten, AccountUnderNulls;
        AccountUnderNullsOfFields(v.fields, Rewritten(v, keys).fields, keys);
      }
    }
  }

  lemma AccountKind(v: Tree, keys: Strkey)
    ensures Rewritten(v, keys).Obj? <==> v.Obj?
  {
    DynamicFieldsKeeps(AccountIDs(v, keys.account), keys.contract);
  }

  lemma SignatureIsNoAccount(m: map<string, Tree>, encode: bytes -> string)
    requires SpelledSignature(m, encode)
    ensures !AccountUnderNulls(Obj(m)) && "Type" !in SIGNATURE_PLACEHOLDER
  {
    assert |m.Keys - {"Hint", "Signature"}| == 0;
    hide SpellsText;
  }

  // ---- the condition on the tree that goes in ----

  lemma {:induction false} EnoughThrough(t: Tree, keys: Strkey)
    ensures NothingUnderNulls(Rewritten(t, keys)) <==> OneRunIsEnough(t, keys.account)
    decreases t, 2
  {
    match t
    case Obj(m) => EnoughThroughObject(m, keys);
    case Arr(s) => EnoughThroughArray(s, keys);
    case _ =>
  }

  lemma {:induction false} EnoughThroughArray(s: seq<Tree>, keys: Strkey)
    ensures NothingUnderNulls(Rewritten(Arr(s), keys)) <==> OneRunIsEnough(Arr(s), keys.account)
    decreases Arr(s), 0
  {
    var d := Rewritten(Arr(s), keys).elems;
    forall i | 0 <= i < |s|
      ensures OpenField(d[i]) <==>
        AccountShape(s[i]) || (!AccountUnderNulls(s[i]) && OneRunIsEnough(s[i], keys.account))
    {
      assert d[i] == DynamicFields(AccountChild(s[i], keys.account), keys.contract);
      AccountChildCases(s[i], keys.account);
      if AccountShape(s[i]) {
        TextIsOpen(AccountChild(s[i], keys.account).text, keys);
      } else {
        EnoughThrough(s[i], keys);
        AccountUnderNullsThrough(s[i], keys);
      }
    }
    hide AccountShape, AccountUnderNulls, DynamicFields, AccountIDs, AccountChild;
    assert NothingUnderNulls(Arr(d)) <==> forall i :: 0 <= i < |d| ==> OpenField(d[i]);
  }

  lemma TextIsOpen(s: string, keys: Strkey)
    ensures DynamicFields(Str(s), keys.contract) == Str(s) && OpenField(Str(s))
  {
  }

  lemma {:induction false} EnoughThroughField(k: string, v: Tree, keys: Strkey)
    ensures OpenField(RewrittenField(k, v, keys)) <==> FieldIsEnough(k, v, keys.account)
    decreases v, 3
  {
    FieldCases(k, v, keys);
    if AccountShape(v) || DynamicShape(k, v) {
      TextIsOpen(RewrittenField(k, v, keys).text, keys);
    } else {
      EnoughThrough(v, keys);
      AccountUnderNullsThrough(v, keys);
    }
    hide RewrittenField, Rewritten, AccountShape, DynamicShape, AccountUnderNulls, NothingUnderNulls, OneRunIsEnough;
  }

  lemma {:induction false} EnoughThroughObject(m: map<string, Tree>, keys: Strkey)
    ensures NothingUnderNulls(Rewritten(Obj(m), keys)) <==> OneRunIsEnough(Obj(m), keys.account)
    decreases Obj(m), 1
  {
    if SpelledSignature(m, keys.account) {
      SignatureThroughAccounts(m, keys.account);
      PlaceholderIsOpen();
    } else {
      RewrittenFields(m, keys);
      var d := Rewritten(Obj(m), keys).fields;
      EnoughByFields(m, keys.account);
      NoSignatureAfter(m, keys);
      OpenObject(d);
      SignatureUnderNullsThrough(m, d, keys);
      hide Rewritten, NothingUnderNulls, OneRunIsEnough, RewrittenField;
      hide OpenField, FieldIsEnough, SpelledSignature, DecoratedSignature;
      forall k | k in m ensures OpenField(d[k]) <==> FieldIsEnough(k, m[k], keys.account) {
        EnoughThroughField(k, m[k], keys);
      }
      UnderNullsIs(d);
    }
  }

  lemma UnderNullsIs(d: map<string, Tree>)
    ensures SignatureUnderNulls(d) <==> !DecoratedSignature(d) && DecoratedSignature(WithoutNulls(d))
  {
    var kept := map k | k in d && d[k] != Null :: d[k];
    assert kept == WithoutNulls(d);
    hide DecoratedSignature;
  }

  lemma EnoughByFields(m: map<string, Tree>, encode: bytes -> string)
    ensures OneRunIsEnough(Obj(m), encode) <==>
      SpelledSignature(m, encode)
      || (!SpelledSignature(WithoutNulls(m), encode) && forall k :: k in m ==> FieldIsEnough(k, m[k], encode))
  {
    hide SpelledSignature, FieldIsEnough;
  }

  lemma NoSignatureAfter(m: map<string, Tree>, keys: Strkey)
    requires !SpelledSignature(m, keys.account)
    ensures Rewritten(Obj(m), keys).Obj? && !DecoratedSignature(Rewritten(Obj(m), keys).fields)
  {
    SignatureThroughAccounts(m, keys.account);
    SignatureNotCreated(AccountIDs(Obj(m), keys.account).fields, keys.contract);
    hide DecoratedSignature, SpelledSignature;
  }

  lemma PlaceholderIsOpen()
    ensures NothingUnderNulls(Obj(SIGNATURE_PLACEHOLDER))
  {
    var p := SIGNATURE_PLACEHOLDER;
    assert WithoutNulls(p) == p;
    UnderNullsIs(p);
    forall k | k in p ensures OpenField(p[k]) {}
    OpenObject(p);
  }

  /**
   Each pass is idempotent, the pipeline is not: running it twice equals running it once
   exactly when no object of the tree that goes in, among those the first two passes leave in
   place, is nulls away from a signature or from an account.
   */
  lemma NormalizeTwice(t: Tree, keys: Strkey)
    ensures Normalize(Normalize(t, keys), keys) == Normalize(t, keys) <==> OneRunIsEnough(t, keys.account)
  {
    TwiceThroughPasses(t, keys);
    EnoughThrough(t, keys);
  }

  /** A signature beside one unset field. */
  const UNSET_FIELD := map["Hint" := Arr([Null, Null, Null, Null]), "Signature" := Str("c2ln"), "Extra" := Null]

  /** Such an object is recognised only the second time round. */
  lemma NormalizeTwiceCanDiffer(keys: Strkey)
    ensures Normalize(Normalize(Obj(UNSET_FIELD), keys), keys) != Normalize(Obj(UNSET_FIELD), keys)
  {
    assert UNSET_FIELD.Keys == {"Hint", "Signature", "Extra"};
    assert WithoutNulls(UNSET_FIELD).Keys == {"Hint", "Signature"};
    EnoughByFields(UNSET_FIELD, keys.account);
    hide Normalize, OneRunIsEnough, FieldIsEnough;
    NormalizeTwice(Obj(UNSET_FIELD), keys);
  }
}
