/**
 * D-Bus values. The source keeps them in `boost::any`, which copies, so they are values here too.
 */
module Values {
  import opened Octets
  import opened Signatures

  /** Integers are kept as the bit pattern they are marshalled from; a negative one is its two's complement. */
  datatype FixedKind = Int16 | Uint16 | Int32 | Uint32 | Int64 | Uint64 {
    function Width(): nat {
      match this
      case Int16 => 2
      case Uint16 => 2
      case Int32 => 4
      case Uint32 => 4
      case Int64 => 8
      case Uint64 => 8
    }

    function Code(): byte {
      match this
      case Int16 => CODE_INT16
      case Uint16 => CODE_UINT16
      case Int32 => CODE_INT32
      case Uint32 => CODE_UINT32
      case Int64 => CODE_INT64
      case Uint64 => CODE_UINT64
    }
  }

  /** A value of a basic type: one constructor per type code, the six integer codes together. */
  datatype BasicValue =
    | Byte(b: byte)
    | Boolean(word: nat)       // a 32-bit word; any non-zero word is true
    | Fixed(kind: FixedKind, bits: nat)
    | Double(bits: nat)        // the eight bytes of an IEEE double, as one 64-bit word
    | String(text: bytes)
    | ObjectPath(text: bytes)
    | Signature(text: bytes)

  datatype Value =
    | Empty                                                  // an unset `Generic`
    | Plain(basic: BasicValue)
    | Array(declared: bytes, contents: seq<Value>)           // `declared` is m_Signature, used while contents is empty
    | Struct(fields: seq<Value>)
    | DictEntry(declared: bytes, key: Value, value: Value)   // `declared` is m_Signature
    | Variant(contained: bytes, value: Value)

  /** `DictEntry::set`, which also fixes the entry's signature. */
  function MakeEntry(key: Value, value: Value): Value {
    DictEntry([OPEN_ENTRY] + SignatureOf(key) + SignatureOf(value) + [CLOSE_ENTRY], key, value)
  }

  function BasicCode(b: BasicValue): byte {
    match b
    case Byte(_) => CODE_BYTE
    case Boolean(_) => CODE_BOOLEAN
    case Fixed(kind, _) => kind.Code()
    case Double(_) => CODE_DOUBLE
    case String(_) => CODE_STRING
    case ObjectPath(_) => CODE_OBJECT_PATH
    case Signature(_) => CODE_SIGNATURE
  }

  /** `getMarshallingSignature`. */
  function SignatureOf(v: Value): bytes {
    match v
    case Empty => []
    case Plain(basic) => [BasicCode(basic)]
    case Array(declared, contents) => if contents != [] then [CODE_ARRAY] + SignatureOf(contents[0]) else declared
    case Struct(fields) => [OPEN_STRUCT] + SignatureOfAll(fields) + [CLOSE_STRUCT]
    case DictEntry(declared, _, _) => declared
    case Variant(_, _) => [CODE_VARIANT]
  }

  function SignatureOfAll(vs: seq<Value>): bytes {
    if vs == [] then [] else SignatureOf(vs[0]) + SignatureOfAll(vs[1..])
  }

  /** `getAlignment` of a signature: decided by its first code. */
  function Alignment(signature: bytes): (a: nat)
    ensures IsAlignment(a)
  {
    var c := At(signature, 0);
    if c == CODE_INT16 || c == CODE_UINT16 then 2
    else if c == CODE_BOOLEAN || c == CODE_INT32 || c == CODE_UINT32
         || c == CODE_STRING || c == CODE_OBJECT_PATH || c == CODE_ARRAY then 4
    else if c == CODE_INT64 || c == CODE_UINT64 || c == CODE_DOUBLE
         || c == CODE_VARIANT || c == OPEN_STRUCT || c == OPEN_ENTRY then 8
    else 1
  }

  // ----- well-formed values

  /**
   * v is a complete value of type t that the library can marshal: homogeneous arrays, signatures of at most 255 bytes.
   */
  ghost predicate HasType(v: Value, t: Type)
    decreases v, 1
  {
    match t
    case Basic(c) => HasBasicType(v, c)
    case AnyVariant =>
      && v.Variant? && v.contained == SignatureOf(v.value) && |v.contained| <= 255
      && exists inner :: WellFormed(inner) && HasType(v.value, inner)
    case ArrayOf(e) =>
      && v.Array? && AllHaveType(v.contents, e)
      && (v.contents == [] ==> v.declared == Print(t))
    case StructOf(ts) => v.Struct? && HaveTypes(v.fields, ts)
    case EntryOf(k, e) => v.DictEntry? && v.declared == Print(t) && HasBasicType(v.key, k) && HasType(v.value, e)
  }

  predicate HasBasicType(v: Value, c: byte) {
    v.Plain? && BasicCode(v.basic) == c && InRange(v.basic)
  }

  /** The ranges the source's field types and length words impose. */
  predicate InRange(b: BasicValue) {
    match b
    case Byte(_) => true
    case Boolean(word) => word < WORD_LIMIT
    case Fixed(kind, bits) => bits < Pow256(kind.Width())
    case Double(bits) => bits < Pow256(8)
    case String(text) => |text| < WORD_LIMIT
    case ObjectPath(text) => |text| < WORD_LIMIT
    case Signature(text) => |text| <= 255
  }

  /** An entry made from a basic key and a value of the right types is an entry of those types, and only then. */
  lemma MadeEntryHasType(key: Value, value: Value, k: byte, e: Type)
    ensures HasType(MakeEntry(key, value), EntryOf(k, e)) <==> HasBasicType(key, k) && HasType(value, e)
  {
    if HasBasicType(key, k) && HasType(value, e) {
      SignatureIsType(value, e);
      assert [OPEN_ENTRY] + [k] == [OPEN_ENTRY, k];
    }
  }

  ghost predicate AllHaveType(vs: seq<Value>, t: Type)
    decreases vs, 2
  {
    vs == [] || (HasType(vs[0], t) && AllHaveType(vs[1..], t))
  }

  ghost predicate HaveTypes(vs: seq<Value>, ts: seq<Type>)
    decreases vs, 2
  {
    && |vs| == |ts|
    && (vs == [] || (HasType(vs[0], ts[0]) && HaveTypes(vs[1..], ts[1..])))
  }

  /** A value's signature is its type, printed. */
  lemma {:induction false} SignatureIsType(v: Value, t: Type)
    requires HasType(v, t)
    ensures SignatureOf(v) == Print(t)
    decreases v, 1
  {
    match t
    case Basic(_) =>
    case AnyVariant =>
    case ArrayOf(e) =>
      if v.contents != [] {
        SignatureIsType(v.contents[0], e);
      }
    case StructOf(ts) => SignaturesAreTypes(v.fields, ts);
    case EntryOf(_, _) =>
  }

  lemma {:induction false} SignaturesAreTypes(vs: seq<Value>, ts: seq<Type>)
    requires HaveTypes(vs, ts)
    ensures SignatureOfAll(vs) == PrintAll(ts)
    decreases vs, 2
  {
    if vs != [] {
      SignatureIsType(vs[0], ts[0]);
      SignaturesAreTypes(vs[1..], ts[1..]);
    }
  }

  // ----- what a receiver reconstructs

  /** The value a receiver rebuilds: booleans are 0 or 1, and every array records its own signature. */
  function Normal(v: Value): Value {
    match v
    case Empty => Empty
    case Plain(basic) => Plain(NormalBasic(basic))
    case Array(_, contents) => Array(SignatureOf(v), NormalAll(contents))
    case Struct(fields) => Struct(NormalAll(fields))
    case DictEntry(declared, key, value) => DictEntry(declared, Normal(key), Normal(value))
    case Variant(contained, value) => Variant(contained, Normal(value))
  }

  function NormalBasic(b: BasicValue): BasicValue {
    if b.Boolean? then Boolean(if b.word != 0 then 1 else 0) else b
  }

  function NormalAll(vs: seq<Value>): (ns: seq<Value>)
    ensures |ns| == |vs|
  {
    if vs == [] then [] else [Normal(vs[0])] + NormalAll(vs[1..])
  }
}
