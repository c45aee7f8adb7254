/** JSON trees and the three rewrites that take run-local noise out of decoded payloads. */
module JsonTree {
  import opened Base
  import opened TextCodecs

  /** A decoded JSON value; a number keeps its literal text. */
  datatype Tree =
    | Null
    | Bool(truth: bool)
    | Number(literal: string)
    | Str(text: string)
    | Arr(elems: seq<Tree>)
    | Obj(fields: map<string, Tree>)

  /** The account and the contract encoding of a 32-byte key. */
  datatype Strkey = Strkey(account: bytes -> string, contract: bytes -> string)

  const KEY_SIZE := 32
  const HINT_SIZE := 4

  // ---- shapes ----

  /** A number's low byte; literals that are no 64-bit integers have none. */
  function NumericByte(t: Tree): Option<byte> {
    if !t.Number? then None
    else match ParseInt64(t.literal) case None => None case Some(v) => Some(v % 256)
  }

  function AllBytes(ts: seq<Tree>): (r: Option<bytes>)
    ensures r.Some? <==> forall i :: 0 <= i < |ts| ==> NumericByte(ts[i]).Some?
    ensures r.Some? ==> |r.value| == |ts| && forall i :: 0 <= i < |ts| ==> NumericByte(ts[i]) == Some(r.value[i])
  {
    if ts == [] then Some([])
    else
      match (AllBytes(ts[..|ts| - 1]), NumericByte(ts[|ts| - 1]))
      case (Some(bs), Some(b)) => Some(bs + [b])
      case _ => None
  }

  predicate ThirtyTwoNumbers(t: Tree) {
    t.Arr? && |t.elems| == KEY_SIZE && forall i :: 0 <= i < KEY_SIZE ==> t.elems[i].Number?
  }

  function TryEncodeStrkey(t: Tree, encode: bytes -> string): Option<string> {
    if !ThirtyTwoNumbers(t) then None
    else match AllBytes(t.elems) case None => None case Some(bs) => Some(encode(bs))
  }

  /** What may stand beside an account's key: a zero discriminator, and unset variants. */
  predicate AccountSibling(k: string, v: Tree) {
    if k == "Ed25519" then true
    else if k == "Type" then NumericByte(v) == Some(0)
    else v == Null
  }

  predicate AccountShape(t: Tree) {
    && t.Obj? && "Ed25519" in t.fields && t.fields["Ed25519"].Arr? && |t.fields["Ed25519"].elems| == KEY_SIZE
    && (forall k :: k in t.fields ==> AccountSibling(k, t.fields[k]))
    && AllBytes(t.fields["Ed25519"].elems).Some?
  }

  function TryEncodeAccountID(t: Tree, encode: bytes -> string): (r: Option<string>)
    ensures r.Some? <==> AccountShape(t)
  {
    if AccountShape(t) then Some(encode(AllBytes(t.fields["Ed25519"].elems).value)) else None
  }

  predicate DecoratedSignature(m: map<string, Tree>) {
    && |m| == 2
    && "Hint" in m && m["Hint"].Arr? && |m["Hint"].elems| == HINT_SIZE
    && "Signature" in m && m["Signature"].Str? && m["Signature"].text != ""
  }

  const SIGNATURE_PLACEHOLDER := map["Hint" := Str("$hint"), "Signature" := Str("$signature")]

  /** The placeholder of a key whose well-shaped value varies from run to run. */
  function PlaceholderOf(k: string): Option<string> {
    if k == "SeqNum" then Some("$seqNum")
    else if k == "BumpTo" then Some("$bumpTo")
    else if k == "OfferId" then Some("$offerId")
    else if k == "TransactionHash" then Some("$innerTransactionHash")
    else None
  }

  predicate WellShaped(k: string, v: Tree) {
    if k == "TransactionHash" then ThirtyTwoNumbers(v)
    else PlaceholderOf(k).Some? && v.Number?
  }

  function DynamicFieldPlaceholder(k: string, v: Tree, encode: bytes -> string): Option<string> {
    if k == "ContractId" then TryEncodeStrkey(v, encode)
    else if WellShaped(k, v) then PlaceholderOf(k)
    else None
  }

  // ---- the three rewrites ----

  function AccountChild(v: Tree, encode: bytes -> string): Tree
    decreases v, 1
  {
    match TryEncodeAccountID(v, encode)
    case Some(s) => Str(s)
    case None => AccountIDs(v, encode)
  }

  function AccountIDs(t: Tree, encode: bytes -> string): Tree
    decreases t, 0
  {
    match t
    case Obj(m) => Obj(map k | k in m :: AccountChild(m[k], encode))
    case Arr(s) => Arr(seq(|s|, i requires 0 <= i < |s| => AccountChild(s[i], encode)))
    case _ => t
  }

  function DynamicChild(k: string, v: Tree, encode: bytes -> string): Tree
    decreases v, 1
  {
    match DynamicFieldPlaceholder(k, v, encode)
    case Some(p) => Str(p)
    case None => DynamicFields(v, encode)
  }

  function DynamicFields(t: Tree, encode: bytes -> string): Tree
    decreases t, 0
  {
    match t
    case Obj(m) =>
      if DecoratedSignature(m) then Obj(SIGNATURE_PLACEHOLDER)
      else Obj(map k | k in m :: DynamicChild(k, m[k], encode))
    case Arr(s) => Arr(seq(|s|, i requires 0 <= i < |s| => DynamicFields(s[i], encode)))
    case _ => t
  }

  function StripNulls(t: Tree): Tree {
    match t
    case Obj(m) => Obj(map k | k in m && m[k] != Null :: StripNulls(m[k]))
    case Arr(s) => Arr(seq(|s|, i requires 0 <= i < |s| => StripNulls(s[i])))
    case _ => t
  }

  function Normalize(t: Tree, keys: Strkey): Tree {
    StripNulls(DynamicFields(AccountIDs(t, keys.account), keys.contract))
  }
}
