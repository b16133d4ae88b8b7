/** The QueryWithParams payload: the driver's encoder fills a buffer field by
    field, the server's decoder reads it back, and the two are exact inverses. */
module QueryCodec {
  import opened Prelude

  const TAG_NULL: byte := 0x00
  const TAG_BOOL: byte := 0x01
  const TAG_INT: byte := 0x02
  const TAG_FLOAT: byte := 0x03
  const TAG_TEXT: byte := 0x04
  const TAG_BYTES: byte := 0x05
  const TAG_VECTOR: byte := 0x06
  const TAG_JSON: byte := 0x07
  const TAG_TIMESTAMP: byte := 0x08
  const TAG_UUID: byte := 0x09
  const MAX_PARAM_COUNT: nat := 65_536
  const MAX_SAFE: int := 0x20_0000_0000_0000
  const TWO_32: int := 0x1_0000_0000
  const TWO_63: int := 0x8000_0000_0000_0000
  const TWO_64: int := 0x1_0000_0000_0000_0000
  const OPTIONS_MAGIC: seq<byte> := [0x52, 0x51, 0x50, 0x31]

  type F32 = s: seq<byte> | |s| == 4 witness [0, 0, 0, 0]
  type F64 = s: seq<byte> | |s| == 8 witness [0, 0, 0, 0, 0, 0, 0, 0]
  type Uuid = s: seq<byte> | |s| == 16 witness seq(16, i => 0)
  type I64 = n: int | -TWO_63 <= n < TWO_63

  /** A parameter as it travels; floats are their IEEE bit patterns. */
  datatype ParamValue =
    | Null
    | Bool(b: bool)
    | Int(i: I64)
    | Float(f: F64)
    | Text(utf8: seq<byte>)
    | Bytes(bytes: seq<byte>)
    | Vector(items: seq<F32>)
    | Json(json: seq<byte>)
    | Timestamp(nanos: I64)
    | Id(id: Uuid)

  // ------------------------------------------------------------ the format

  function I64Bytes(n: I64): (s: seq<byte>)
    ensures |s| == 8
  {
    LittleEndian(if n < 0 then n + TWO_64 else n, 8)
  }

  function I64Of(s: seq<byte>): I64
    requires |s| == 8
  {
    FromLittleEndianRoundTrip(s);
    assert Pow256(8) == TWO_64;
    var n := FromLittleEndian(s);
    if n >= TWO_63 then n - TWO_64 else n
  }

  function FloatBytes(items: seq<F32>): (s: seq<byte>)
    ensures |s| == 4 * |items| && s == Join(items)
  {
    if items == [] then [] else items[0] + FloatBytes(items[1..])
  }

  function FloatsOf(s: seq<byte>, n: nat): (items: seq<F32>)
    requires |s| == 4 * n
    ensures |items| == n
    decreases n
  {
    if n == 0 then [] else [s[..4]] + FloatsOf(s[4..], n - 1)
  }

  predicate LengthFits(v: ParamValue) {
    match v
    case Text(t) => |t| < TWO_32
    case Bytes(b) => |b| < TWO_32
    case Json(j) => |j| < TWO_32
    case Vector(items) => |items| < TWO_32
    case _ => true
  }

  function Prefixed(bytes: seq<byte>): seq<byte> {
    LittleEndian(|bytes|, 4) + bytes
  }

  function Tag(v: ParamValue): byte {
    match v
    case Null => TAG_NULL
    case Bool(_) => TAG_BOOL
    case Int(_) => TAG_INT
    case Float(_) => TAG_FLOAT
    case Text(_) => TAG_TEXT
    case Bytes(_) => TAG_BYTES
    case Vector(_) => TAG_VECTOR
    case Json(_) => TAG_JSON
    case Timestamp(_) => TAG_TIMESTAMP
    case Id(_) => TAG_UUID
  }

  function Body(v: ParamValue): seq<byte> {
    match v
    case Null => []
    case Bool(b) => [if b then 1 else 0]
    case Int(i) => I64Bytes(i)
    case Float(f) => f
    case Text(t) => Prefixed(t)
    case Bytes(b) => Prefixed(b)
    case Vector(items) => LittleEndian(|items|, 4) + FloatBytes(items)
    case Json(j) => Prefixed(j)
    case Timestamp(n) => I64Bytes(n)
    case Id(id) => id
  }

  /** One tagged value. */
  function ValueBytes(v: ParamValue): seq<byte> {
    [Tag(v)] + Body(v)
  }

  function AllBytes(values: seq<ParamValue>): seq<byte> {
    if values == [] then [] else ValueBytes(values[0]) + AllBytes(values[1..])
  }

  function QueryBytes(sql: seq<byte>, values: seq<ParamValue>): seq<byte> {
    LittleEndian(|sql|, 4) + (sql + (LittleEndian(|values|, 4) + AllBytes(values)))
  }

  /** The number behind a tag, least significant byte first, in two's complement. */
  predicate IsSigned(bytes: seq<byte>, n: int) {
    |bytes| == 8 && FromLittleEndian(bytes) == if n < 0 then n + 0x1_0000_0000_0000_0000 else n
  }

  /** Some bytes behind their length. */
  predicate IsPrefixed(bytes: seq<byte>, field: seq<byte>) {
    |bytes| == 4 + |field| && FromLittleEndian(bytes[..4]) == |field| && bytes[4..] == field
  }

  /** Floats behind their count. */
  predicate IsCounted(bytes: seq<byte>, items: seq<F32>) {
    && |bytes| == 4 + 4 * |items| && FromLittleEndian(bytes[..4]) == |items|
    && forall k :: 0 <= k < |items| ==> bytes[4 + 4 * k..8 + 4 * k] == items[k]
  }

  /** The wire form of every kind of value, byte by byte. */
  predicate IsWireForm(v: ParamValue, bytes: seq<byte>) {
    bytes != [] &&
    match v
    case Null => bytes == [0x00]
    case Bool(b) => bytes == [0x01, if b then 1 else 0]
    case Int(i) => bytes[0] == 0x02 && IsSigned(bytes[1..], i)
    case Float(f) => bytes[0] == 0x03 && bytes[1..] == f
    case Text(t) => bytes[0] == 0x04 && IsPrefixed(bytes[1..], t)
    case Bytes(b) => bytes[0] == 0x05 && IsPrefixed(bytes[1..], b)
    case Vector(items) => bytes[0] == 0x06 && IsCounted(bytes[1..], items)
    case Json(j) => bytes[0] == 0x07 && IsPrefixed(bytes[1..], j)
    case Timestamp(n) => bytes[0] == 0x08 && IsSigned(bytes[1..], n)
    case Id(id) => bytes[0] == 0x09 && bytes[1..] == id
  }

  lemma WireForm(v: ParamValue)
    requires LengthFits(v)
    ensures IsWireForm(v, ValueBytes(v))
  {
    hide LittleEndian, FromLittleEndian, FloatBytes;
    assert ValueBytes(v)[1..] == Body(v);
    match v
    case Int(i) => SignedForm(i);
    case Timestamp(n) => SignedForm(n);
    case Text(t) => PrefixedForm(t);
    case Bytes(b) => PrefixedForm(b);
    case Json(j) => PrefixedForm(j);
    case Vector(items) => CountedForm(items);
    case _ =>
  }

  lemma SignedForm(n: I64)
    ensures IsSigned(I64Bytes(n), n)
  {
    assert Pow256(8) == TWO_64;
    LittleEndianRoundTrip(if n < 0 then n + TWO_64 else n, 8);
  }

  lemma PrefixedForm(field: seq<byte>)
    requires |field| < TWO_32
    ensures IsPrefixed(Prefixed(field), field)
  {
    hide LittleEndian, FromLittleEndian;
    assert Pow256(4) == TWO_32;
    LittleEndianRoundTrip(|field|, 4);
    assert Prefixed(field)[..4] == LittleEndian(|field|, 4);
  }

  lemma CountedForm(items: seq<F32>)
    requires |items| < TWO_32
    ensures IsCounted(LittleEndian(|items|, 4) + FloatBytes(items), items)
  {
    hide LittleEndian, FromLittleEndian, FloatBytes;
    var bytes := LittleEndian(|items|, 4) + FloatBytes(items);
    assert Pow256(4) == TWO_32;
    LittleEndianRoundTrip(|items|, 4);
    assert bytes[..4] == LittleEndian(|items|, 4);
    forall k | 0 <= k < |items| ensures bytes[4 + 4 * k..8 + 4 * k] == items[k] {
      FloatAt(items, k);
      assert bytes[4 + 4 * k..8 + 4 * k] == FloatBytes(items)[4 * k..4 * k + 4];
    }
  }

  lemma {:induction false} FloatAt(items: seq<F32>, k: nat)
    requires k < |items|
    ensures FloatBytes(items)[4 * k..4 * k + 4] == items[k]
    decreases k
  {
    if k > 0 {
      FloatAt(items[1..], k - 1);
      assert FloatBytes(items)[4 * k..4 * k + 4] == FloatBytes(items[1..])[4 * (k - 1)..4 * (k - 1) + 4];
    }
  }

  // ----------------------------------------------------- the server's decoder

  datatype DecodeError =
    | Truncated
    | InvalidUtf8
    | InvalidBool(b: byte)
    | UnknownTag(tag: byte)
    | ParamCountOverLimit(count: nat)
    | InvalidOptionsMagic
    | TrailingBytes(count: nat)

  /** A decoded field and the bytes after it. */
  datatype Taken<T> = Taken(field: T, rest: seq<byte>)

  type Decoded<T> = Result<Taken<T>, DecodeError>

  function TakeBytes(s: seq<byte>, n: nat): (r: Decoded<seq<byte>>)
    ensures r.Ok? <==> n <= |s|
    ensures r.Ok? ==> |r.value.field| == n && s == r.value.field + r.value.rest
  {
    if n <= |s| then Ok(Taken(s[..n], s[n..])) else Err(Truncated)
  }

  function TakeU32(s: seq<byte>): Decoded<nat> {
    match TakeBytes(s, 4)
    case Err(e) => Err(e)
    case Ok(t) => Ok(Taken(FromLittleEndian(t.field), t.rest))
  }

  function TakePrefixed(s: seq<byte>): Decoded<seq<byte>> {
    match TakeU32(s)
    case Err(e) => Err(e)
    case Ok(t) => TakeBytes(t.rest, t.field)
  }

  function TakeFloats(s: seq<byte>): Decoded<seq<F32>> {
    match TakeU32(s)
    case Err(e) => Err(e)
    case Ok(t) =>
      match TakeBytes(t.rest, 4 * t.field)
      case Err(e) => Err(e)
      case Ok(b) => Ok(Taken(FloatsOf(b.field, t.field), b.rest))
  }

  function MapTaken<T>(r: Decoded<T>, f: T -> ParamValue): Decoded<ParamValue> {
    match r
    case Err(e) => Err(e)
    case Ok(t) => Ok(Taken(f(t.field), t.rest))
  }

  /** Reads one tagged value; utf8 decides which byte strings are valid text. */
  function DecodeValue(utf8: seq<byte> -> bool, s: seq<byte>): Decoded<ParamValue> {
    if s == [] then Err(Truncated)
    else DecodeBody(utf8, s[0], s[1..])
  }

  function DecodeBody(utf8: seq<byte> -> bool, tag: byte, s: seq<byte>): Decoded<ParamValue> {
    if tag == TAG_NULL then Ok(Taken(Null, s))
    else if tag == TAG_BOOL then DecodeBool(s)
    else if tag == TAG_INT then MapTaken(TakeI64(s), i => Int(i))
    else if tag == TAG_FLOAT then DecodeFloat(s)
    else if tag == TAG_TEXT then DecodeText(utf8, s)
    else if tag == TAG_BYTES then MapTaken(TakePrefixed(s), b => Bytes(b))
    else if tag == TAG_VECTOR then MapTaken(TakeFloats(s), items => Vector(items))
    else if tag == TAG_JSON then MapTaken(TakePrefixed(s), j => Json(j))
    else if tag == TAG_TIMESTAMP then MapTaken(TakeI64(s), n => Timestamp(n))
    else if tag == TAG_UUID then DecodeId(s)
    else Err(UnknownTag(tag))
  }

  function DecodeBool(s: seq<byte>): Decoded<ParamValue> {
    match TakeBytes(s, 1)
    case Err(e) => Err(e)
    case Ok(t) =>
      if t.field[0] == 0 then Ok(Taken(Bool(false), t.rest))
      else if t.field[0] == 1 then Ok(Taken(Bool(true), t.rest))
      else Err(InvalidBool(t.field[0]))
  }

  function TakeI64(s: seq<byte>): Decoded<I64> {
    match TakeBytes(s, 8)
    case Err(e) => Err(e)
    case Ok(t) => Ok(Taken(I64Of(t.field), t.rest))
  }

  function DecodeFloat(s: seq<byte>): Decoded<ParamValue> {
    match TakeBytes(s, 8)
    case Err(e) => Err(e)
    case Ok(t) => Ok(Taken(Float(t.field), t.rest))
  }

  function DecodeId(s: seq<byte>): Decoded<ParamValue> {
    match TakeBytes(s, 16)
    case Err(e) => Err(e)
    case Ok(t) => Ok(Taken(Id(t.field), t.rest))
  }

  function DecodeText(utf8: seq<byte> -> bool, s: seq<byte>): Decoded<ParamValue> {
    match TakePrefixed(s)
    case Err(e) => Err(e)
    case Ok(t) => if utf8(t.field) then Ok(Taken(Text(t.field), t.rest)) else Err(InvalidUtf8)
  }

  function DecodeValues(utf8: seq<byte> -> bool, s: seq<byte>, n: nat): Decoded<seq<ParamValue>>
    decreases n
  {
    if n == 0 then Ok(Taken([], s))
    else
      match DecodeValue(utf8, s)
      case Err(e) => Err(e)
      case Ok(t) =>
        match DecodeValues(utf8, t.rest, n - 1)
        case Err(e) => Err(e)
        case Ok(more) => Ok(Taken([t.field] + more.field, more.rest))
  }

  /** A decoded request; commitPolicy comes from the optional trailer. */
  datatype QueryRequest = QueryRequest(sql: seq<byte>, params: seq<ParamValue>, commitPolicy: Option<seq<byte>>)

  function DecodeOptions(utf8: seq<byte> -> bool, s: seq<byte>): Decoded<Option<seq<byte>>> {
    if s == [] then Ok(Taken(None, s))
    else
      match TakeBytes(s, 4)
      case Err(e) => Err(e)
      case Ok(magic) =>
        if magic.field != OPTIONS_MAGIC then Err(InvalidOptionsMagic)
        else
          match TakePrefixed(magic.rest)
          case Err(e) => Err(e)
          case Ok(t) => if utf8(t.field) then Ok(Taken(Some(t.field), t.rest)) else Err(InvalidUtf8)
  }

  function DecodeQuery(utf8: seq<byte> -> bool, s: seq<byte>): Result<QueryRequest, DecodeError> {
    match TakePrefixed(s)
    case Err(e) => Err(e)
    case Ok(sql) =>
      if !utf8(sql.field) then Err(InvalidUtf8)
      else
        match TakeU32(sql.rest)
        case Err(e) => Err(e)
        case Ok(count) =>
          if count.field > MAX_PARAM_COUNT then Err(ParamCountOverLimit(count.field))
          else
            match DecodeValues(utf8, count.rest, count.field)
            case Err(e) => Err(e)
            case Ok(params) =>
              match DecodeOptions(utf8, params.rest)
              case Err(e) => Err(e)
              case Ok(options) =>
                if options.rest != [] then Err(TrailingBytes(|options.rest|))
                else Ok(QueryRequest(sql.field, params.field, options.field))
  }

  // ------------------------------------------------------- exact inverses

  lemma TakeExactly(a: seq<byte>, b: seq<byte>)
    ensures TakeBytes(a + b, |a|) == Ok(Taken(a, b))
  {
    assert (a + b)[..|a|] == a && (a + b)[|a|..] == b;
  }

  lemma U32RoundTrip(n: nat, b: seq<byte>)
    requires n < TWO_32
    ensures TakeU32(LittleEndian(n, 4) + b) == Ok(Taken(n, b))
  {
    assert Pow256(4) == TWO_32;
    LittleEndianRoundTrip(n, 4);
    TakeExactly(LittleEndian(n, 4), b);
  }

  lemma U32Canonical(s: seq<byte>)
    requires TakeU32(s).Ok?
    ensures
      var t := TakeU32(s).value;
      t.field < TWO_32 && s == LittleEndian(t.field, 4) + t.rest
  {
    assert Pow256(4) == TWO_32;
    FromLittleEndianRoundTrip(s[..4]);
  }

  lemma PrefixedRoundTrip(a: seq<byte>, b: seq<byte>)
    requires |a| < TWO_32
    ensures TakePrefixed(LittleEndian(|a|, 4) + a + b) == Ok(Taken(a, b))
  {
    hide TakeU32, TakeBytes;
    U32RoundTrip(|a|, a + b);
    TakeExactly(a, b);
    assert LittleEndian(|a|, 4) + a + b == LittleEndian(|a|, 4) + (a + b);
  }

  lemma PrefixedCanonical(s: seq<byte>)
    requires TakePrefixed(s).Ok?
    ensures
      var t := TakePrefixed(s).value;
      |t.field| < TWO_32 && s == LittleEndian(|t.field|, 4) + t.field + t.rest
  {
    hide TakeU32;
    U32Canonical(s);
    var n := TakeU32(s).value;
    var t := TakePrefixed(s).value;
    assert s == LittleEndian(n.field, 4) + (t.field + t.rest);
  }

  lemma I64RoundTrip(n: I64)
    ensures I64Of(I64Bytes(n)) == n
  {
    assert Pow256(8) == TWO_64;
    LittleEndianRoundTrip(if n < 0 then n + TWO_64 else n, 8);
  }

  lemma I64Canonical(s: seq<byte>)
    requires |s| == 8
    ensures I64Bytes(I64Of(s)) == s
  {
    assert Pow256(8) == TWO_64;
    FromLittleEndianRoundTrip(s);
  }

  lemma {:induction false} FloatsRoundTrip(items: seq<F32>)
    ensures FloatsOf(FloatBytes(items), |items|) == items
    decreases |items|
  {
    if items != [] {
      FloatsRoundTrip(items[1..]);
      var s := FloatBytes(items);
      assert s[..4] == items[0] && s[4..] == FloatBytes(items[1..]);
    }
  }

  lemma {:induction false} FloatsCanonical(s: seq<byte>, n: nat)
    requires |s| == 4 * n
    ensures FloatBytes(FloatsOf(s, n)) == s
    decreases n
  {
    if n > 0 {
      FloatsCanonical(s[4..], n - 1);
      assert FloatsOf(s, n)[1..] == FloatsOf(s[4..], n - 1);
      assert s == s[..4] + s[4..];
    }
  }

  predicate TextValid(utf8: seq<byte> -> bool, v: ParamValue) {
    v.Text? ==> utf8(v.utf8)
  }

  lemma BodyRoundTrip(utf8: seq<byte> -> bool, v: ParamValue, rest: seq<byte>)
    requires LengthFits(v) && TextValid(utf8, v)
    ensures DecodeBody(utf8, Tag(v), Body(v) + rest) == Ok(Taken(v, rest))
  {
    hide LittleEndian, TakeBytes, TakeU32, TakePrefixed, TakeFloats, I64Of, I64Bytes, FloatBytes, FloatsOf;
    TakeExactly(Body(v), rest);
    match v
    case Null => assert [] + rest == rest;
    case Int(i) => I64RoundTrip(i);
    case Timestamp(n) => I64RoundTrip(n);
    case Text(t) => PrefixedRoundTrip(t, rest);
    case Bytes(b) => PrefixedRoundTrip(b, rest);
    case Json(j) => PrefixedRoundTrip(j, rest);
    case Vector(items) => VectorRoundTrip(items, rest);
    case _ =>
  }

  lemma VectorRoundTrip(items: seq<F32>, rest: seq<byte>)
    requires |items| < TWO_32
    ensures TakeFloats(LittleEndian(|items|, 4) + FloatBytes(items) + rest) == Ok(Taken(items, rest))
  {
    hide LittleEndian, TakeBytes, TakeU32, FloatBytes, FloatsOf;
    U32RoundTrip(|items|, FloatBytes(items) + rest);
    TakeExactly(FloatBytes(items), rest);
    FloatsRoundTrip(items);
    assert LittleEndian(|items|, 4) + FloatBytes(items) + rest == LittleEndian(|items|, 4) + (FloatBytes(items) + rest);
  }

  /** Decoding undoes encoding, whatever follows the value. */
  lemma ValueRoundTrip(utf8: seq<byte> -> bool, v: ParamValue, rest: seq<byte>)
    requires LengthFits(v) && TextValid(utf8, v)
    ensures DecodeValue(utf8, ValueBytes(v) + rest) == Ok(Taken(v, rest))
  {
    hide Tag, Body, DecodeBody;
    BodyRoundTrip(utf8, v, rest);
    assert (ValueBytes(v) + rest)[1..] == Body(v) + rest;
  }

  lemma VectorCanonical(s: seq<byte>)
    requires TakeFloats(s).Ok?
    ensures
      var t := TakeFloats(s).value;
      |t.field| < TWO_32 && s == LittleEndian(|t.field|, 4) + FloatBytes(t.field) + t.rest
  {
    hide LittleEndian, TakeU32, FloatBytes, FloatsOf;
    U32Canonical(s);
    var n := TakeU32(s).value;
    var b := TakeBytes(n.rest, 4 * n.field).value;
    FloatsCanonical(b.field, n.field);
    assert s == LittleEndian(n.field, 4) + (b.field + b.rest);
  }

  lemma BodyCanonical(utf8: seq<byte> -> bool, tag: byte, s: seq<byte>)
    requires DecodeBody(utf8, tag, s).Ok?
    ensures
      var t := DecodeBody(utf8, tag, s).value;
      LengthFits(t.field) && TextValid(utf8, t.field) && tag == Tag(t.field) && s == Body(t.field) + t.rest
  {
    hide LittleEndian, TakeU32, TakePrefixed, TakeFloats, I64Of, I64Bytes, FloatBytes, FloatsOf;
    if tag == TAG_NULL {
      assert s == [] + s;
    } else if tag == TAG_INT || tag == TAG_TIMESTAMP {
      I64Canonical(TakeBytes(s, 8).value.field);
    } else if tag == TAG_TEXT || tag == TAG_BYTES || tag == TAG_JSON {
      PrefixedCanonical(s);
    } else if tag == TAG_VECTOR {
      VectorCanonical(s);
    }
  }

  /** Encoding undoes decoding: the decoder accepts nothing but the encoder's
      own output, so every value has exactly one spelling. */
  lemma ValueCanonical(utf8: seq<byte> -> bool, s: seq<byte>)
    requires DecodeValue(utf8, s).Ok?
    ensures
      var t := DecodeValue(utf8, s).value;
      LengthFits(t.field) && TextValid(utf8, t.field) && s == ValueBytes(t.field) + t.rest
  {
    hide LengthFits, TextValid, Tag, Body, DecodeBody;
    BodyCanonical(utf8, s[0], s[1..]);
    var t := DecodeValue(utf8, s).value;
    assert s == [s[0]] + s[1..];
    assert [s[0]] + (Body(t.field) + t.rest) == ValueBytes(t.field) + t.rest;
  }

  /** Tagged values are prefix-free: two streams that start with a value agree
      on that value and on everything after it. */
  lemma ValuesPrefixFree(v: ParamValue, w: ParamValue, r: seq<byte>, t: seq<byte>)
    requires LengthFits(v) && LengthFits(w)
    requires ValueBytes(v) + r == ValueBytes(w) + t
    ensures v == w && r == t
  {
    hide ValueBytes, DecodeValue, LengthFits;
    var anyText := (b: seq<byte>) => true;
    ValueRoundTrip(anyText, v, r);
    ValueRoundTrip(anyText, w, t);
  }

  lemma {:induction false} ValuesRoundTrip(utf8: seq<byte> -> bool, values: seq<ParamValue>, rest: seq<byte>)
    requires forall i :: 0 <= i < |values| ==> LengthFits(values[i]) && TextValid(utf8, values[i])
    ensures DecodeValues(utf8, AllBytes(values) + rest, |values|) == Ok(Taken(values, rest))
    decreases |values|
  {
    hide ValueBytes, DecodeValue, LengthFits, TextValid;
    if values == [] {
      assert AllBytes(values) + rest == rest;
    } else {
      var tail := AllBytes(values[1..]);
      ValueRoundTrip(utf8, values[0], tail + rest);
      ValuesRoundTrip(utf8, values[1..], rest);
      assert AllBytes(values) + rest == ValueBytes(values[0]) + (tail + rest);
      assert values == [values[0]] + values[1..];
    }
  }

  /** The server reads back exactly the SQL and the parameters encoded. */
  lemma QueryRoundTrip(utf8: seq<byte> -> bool, sql: seq<byte>, values: seq<ParamValue>)
    requires |sql| < TWO_32 && utf8(sql) && |values| <= MAX_PARAM_COUNT
    requires forall i :: 0 <= i < |values| ==> LengthFits(values[i]) && TextValid(utf8, values[i])
    ensures DecodeQuery(utf8, QueryBytes(sql, values)) == Ok(QueryRequest(sql, values, None))
  {
    hide TakePrefixed, TakeU32, DecodeValues, AllBytes;
    var tail := LittleEndian(|values|, 4) + AllBytes(values);
    PrefixedRoundTrip(sql, tail);
    assert QueryBytes(sql, values) == LittleEndian(|sql|, 4) + sql + tail;
    U32RoundTrip(|values|, AllBytes(values));
    ValuesRoundTrip(utf8, values, []);
    assert AllBytes(values) + [] == AllBytes(values);
  }

  lemma {:induction false} ValuesCanonical(utf8: seq<byte> -> bool, s: seq<byte>, n: nat)
    requires DecodeValues(utf8, s, n).Ok?
    ensures
      var t := DecodeValues(utf8, s, n).value;
      |t.field| == n && s == AllBytes(t.field) + t.rest
    decreases n
  {
    hide ValueBytes, DecodeValue, LengthFits, TextValid;
    var t := DecodeValues(utf8, s, n).value;
    if n == 0 {
      assert s == [] + s;
    } else {
      ValueCanonical(utf8, s);
      var first := DecodeValue(utf8, s).value;
      ValuesCanonical(utf8, first.rest, n - 1);
      assert t.field[0] == first.field;
      var more := DecodeValues(utf8, first.rest, n - 1).value;
      assert t.field[1..] == more.field;
      assert ValueBytes(first.field) + (AllBytes(more.field) + t.rest) == AllBytes(t.field) + t.rest;
    }
  }

  /** The options trailer, byte by byte: the four letters RQP1 and the policy behind
      its length. */
  lemma OptionsForm(policy: seq<byte>)
    requires |policy| < TWO_32
    ensures
      var bytes := OptionBytes(Some(policy));
      |bytes| >= 4 && bytes[..4] == [0x52, 0x51, 0x50, 0x31] && IsPrefixed(bytes[4..], policy)
  {
    hide Prefixed, IsPrefixed;
    PrefixedForm(policy);
    var bytes := OptionBytes(Some(policy));
    assert bytes[..4] == OPTIONS_MAGIC && bytes[4..] == Prefixed(policy);
  }

  function OptionBytes(commitPolicy: Option<seq<byte>>): seq<byte> {
    match commitPolicy
    case None => []
    case Some(policy) => OPTIONS_MAGIC + Prefixed(policy)
  }

  lemma OptionsCanonical(utf8: seq<byte> -> bool, s: seq<byte>)
    requires DecodeOptions(utf8, s).Ok?
    ensures
      var t := DecodeOptions(utf8, s).value;
      s == OptionBytes(t.field) + t.rest
  {
    hide TakePrefixed, LittleEndian;
    if s != [] {
      var magic := TakeBytes(s, 4).value;
      PrefixedCanonical(magic.rest);
      var t := TakePrefixed(magic.rest).value;
      assert s == OPTIONS_MAGIC + (Prefixed(t.field) + t.rest);
    }
  }

  /** The server accepts nothing but encodings: a payload it decodes is, byte for
      byte, the encoding of the request it decodes to. */
  lemma QueryCanonical(utf8: seq<byte> -> bool, s: seq<byte>)
    requires DecodeQuery(utf8, s).Ok?
    ensures
      var q := DecodeQuery(utf8, s).value;
      s == QueryBytes(q.sql, q.params) + OptionBytes(q.commitPolicy)
  {
    hide TakePrefixed, TakeU32, DecodeValues, DecodeOptions, AllBytes, OptionBytes, LittleEndian;
    PrefixedCanonical(s);
    var sql := TakePrefixed(s).value;
    U32Canonical(sql.rest);
    var count := TakeU32(sql.rest).value;
    ValuesCanonical(utf8, count.rest, count.field);
    var params := DecodeValues(utf8, count.rest, count.field).value;
    OptionsCanonical(utf8, params.rest);
    var options := DecodeOptions(utf8, params.rest).value;
    var tail := OptionBytes(options.field);
    assert params.rest == tail;
    var counted := LittleEndian(count.field, 4) + (AllBytes(params.field) + tail);
    assert LittleEndian(|sql.field|, 4) + sql.field + counted == QueryBytes(sql.field, params.field) + tail;
  }

  // ------------------------------------------------------ the driver's encoder

  /** A JavaScript number: its bit pattern, and its value if it is an integer. */
  datatype Double = Double(bits: F64, integer: Option<int>)

  /** A query parameter as the caller passes it. */
  datatype QueryParam =
    | NullParam
    | Boolean(b: bool)
    | Number(number: Double)
    | String(utf8: seq<byte>)
    | ByteArray(bytes: seq<byte>)
    | Date(millis: Option<int>)
    | NumberArray(items: seq<F32>)
    | MixedArray
    | UuidRecord(hex: seq<byte>)
    | Record(json: seq<byte>)
    | OtherType

  datatype ParamError = UnsupportedParam | OutOfRange | ParamCount(count: nat)

  /** The first sixteen bytes, zero-filled. */
  function Sixteen(bytes: seq<byte>): Uuid {
    seq(16, i requires 0 <= i < 16 => if i < |bytes| then bytes[i] else 0)
  }

  /** The wire value a parameter stands for, or why it has none. */
  function Meaning(p: QueryParam): Result<ParamValue, ParamError> {
    match p
    case NullParam => Ok(Null)
    case Boolean(b) => Ok(Bool(b))
    case Number(d) =>
      if d.integer.Some? && -MAX_SAFE <= d.integer.value <= MAX_SAFE then Ok(Int(d.integer.value))
      else Ok(Float(d.bits))
    case String(t) => if |t| < TWO_32 then Ok(Text(t)) else Err(OutOfRange)
    case ByteArray(b) => if |b| < TWO_32 then Ok(Bytes(b)) else Err(OutOfRange)
    case Date(millis) =>
      if millis.None? then Err(UnsupportedParam)
      else if -TWO_63 <= millis.value * 1_000_000 < TWO_63 then Ok(Timestamp(millis.value * 1_000_000))
      else Err(OutOfRange)
    case NumberArray(items) => if |items| < TWO_32 then Ok(Vector(items)) else Err(OutOfRange)
    case MixedArray => Err(UnsupportedParam)
    case UuidRecord(hex) => Ok(Id(Sixteen(hex)))
    case Record(json) => if |json| < TWO_32 then Ok(Json(json)) else Err(OutOfRange)
    case OtherType => Err(UnsupportedParam)
  }

  /** The value stands for the parameter: a boolean for itself, a number for its
      integer if that is within 2^53 and for its bits otherwise, text, bytes, floats
      and JSON for themselves, a date for its nanoseconds, a UUID for its bytes. */
  predicate StandsFor(v: ParamValue, p: QueryParam) {
    match p
    case NullParam => v.Null?
    case Boolean(b) => v.Bool? && v.b == b
    case Number(d) =>
      if d.integer.Some? && -9_007_199_254_740_992 <= d.integer.value <= 9_007_199_254_740_992
      then v.Int? && v.i == d.integer.value
      else v.Float? && v.f == d.bits
    case String(t) => v.Text? && v.utf8 == t
    case ByteArray(b) => v.Bytes? && v.bytes == b
    case Date(millis) => v.Timestamp? && millis.Some? && v.nanos == 1_000_000 * millis.value
    case NumberArray(items) => v.Vector? && v.items == items
    case UuidRecord(hex) => v.Id? && forall i :: 0 <= i < 16 ==> v.id[i] == if i < |hex| then hex[i] else 0
    case Record(json) => v.Json? && v.json == json
    case MixedArray => false
    case OtherType => false
  }

  /** Why a parameter is refused: invalid dates, mixed arrays and other types are
      unsupported; lengths from 2^32 and nanoseconds outside 64 bits are out of
      range. */
  function Refusal(p: QueryParam): Option<ParamError> {
    match p
    case String(t) => if |t| >= 0x1_0000_0000 then Some(OutOfRange) else None
    case ByteArray(b) => if |b| >= 0x1_0000_0000 then Some(OutOfRange) else None
    case NumberArray(items) => if |items| >= 0x1_0000_0000 then Some(OutOfRange) else None
    case Record(json) => if |json| >= 0x1_0000_0000 then Some(OutOfRange) else None
    case Date(millis) =>
      if millis.None? then Some(UnsupportedParam)
      else if -9_223_372_036_854_775_808 <= 1_000_000 * millis.value <= 9_223_372_036_854_775_807 then None
      else Some(OutOfRange)
    case MixedArray => Some(UnsupportedParam)
    case OtherType => Some(UnsupportedParam)
    case _ => None
  }

  lemma MeaningExactly(p: QueryParam)
    ensures Meaning(p).Ok? <==> Refusal(p).None?
    ensures Meaning(p).Ok? ==> StandsFor(Meaning(p).value, p)
    ensures Meaning(p).Err? ==> Refusal(p) == Some(Meaning(p).error)
  {
  }

  /** Every piece of text is valid UTF-8. */
  predicate TextsValid(utf8: seq<byte> -> bool, sql: seq<byte>, params: seq<QueryParam>) {
    utf8(sql) && forall i :: 0 <= i < |params| && params[i].String? ==> utf8(params[i].utf8)
  }

  /** The server takes the payload for this SQL and a value for each parameter that
      stands for it. */
  predicate Understood(utf8: seq<byte> -> bool, payload: seq<byte>, sql: seq<byte>, params: seq<QueryParam>) {
    var q := DecodeQuery(utf8, payload);
    && q.Ok? && q.value.sql == sql && q.value.commitPolicy.None? && |q.value.params| == |params|
    && forall i :: 0 <= i < |params| ==> StandsFor(q.value.params[i], params[i])
  }

  /** Parameter i is the first refused, for this reason. */
  predicate FirstRefused(params: seq<QueryParam>, i: nat, e: ParamError) {
    i < |params| && Refusal(params[i]) == Some(e) && forall j :: 0 <= j < i ==> Refusal(params[j]).None?
  }

  predicate NoneRefused(params: seq<QueryParam>) {
    forall i :: 0 <= i < |params| ==> Refusal(params[i]).None?
  }

  /** A tag, a length and the bytes themselves. */
  method EncodeBytes(tag: byte, bytes: seq<byte>) returns (r: Result<seq<byte>, ParamError>)
    ensures r == if |bytes| < TWO_32 then Ok([tag] + Prefixed(bytes)) else Err(OutOfRange)
  {
    var out := new byte[1 + 4 + |bytes|](i => 0);
    out[0] := tag;
    if |bytes| >= TWO_32 { return Err(OutOfRange); }
    assert out[..1] == [tag];
    CopyInto(LittleEndian(|bytes|, 4), out, 1);
    CopyInto(bytes, out, 5);
    assert out[..] == out[..5 + |bytes|];
    assert [tag] + LittleEndian(|bytes|, 4) + bytes == [tag] + Prefixed(bytes);
    r := Ok(out[..]);
  }

  /** A tag, a count and each float in turn. */
  method EncodeVector(items: seq<F32>) returns (r: Result<seq<byte>, ParamError>)
    ensures r == if |items| < TWO_32 then Ok(ValueBytes(Vector(items))) else Err(OutOfRange)
  {
    hide LittleEndian, Join;
    assert |FloatBytes(items)| == 4 * |items|;
    var out := new byte[1 + 4 + |items| * 4](i => 0);
    out[0] := TAG_VECTOR;
    if |items| >= TWO_32 { return Err(OutOfRange); }
    assert out[..1] == [TAG_VECTOR];
    CopyInto(LittleEndian(|items|, 4), out, 1);
    ghost var head := [TAG_VECTOR] + LittleEndian(|items|, 4);
    assert out[..5] == head;
    CopyAll(items, out, 5);
    assert head + FloatBytes(items) == ValueBytes(Vector(items));
    r := Ok(out[..]);
  }

  /** A tag and an eight-byte integer or float. */
  method EncodeFixed(tag: byte, bytes: seq<byte>) returns (s: seq<byte>)
    ensures s == [tag] + bytes
  {
    var out := new byte[1 + |bytes|](i => 0);
    out[0] := tag;
    CopyInto(bytes, out, 1);
    s := out[..];
  }

  /** Encodes one parameter, or says why it cannot be sent. */
  method EncodeValue(p: QueryParam) returns (r: Result<seq<byte>, ParamError>)
    ensures
      match Meaning(p)
      case Ok(v) => r == Ok(ValueBytes(v))
      case Err(e) => r == Err(e)
    ensures r.Ok? ==> exists v :: StandsFor(v, p) && IsWireForm(v, r.value)
    ensures r.Ok? <==> Refusal(p).None?
    ensures r.Err? ==> Refusal(p) == Some(r.error)
  {
    hide LittleEndian, I64Bytes, FloatBytes, IsWireForm, StandsFor, Refusal;
    MeaningExactly(p);
    if Meaning(p).Ok? {
      MeaningFits(p);
      WireForm(Meaning(p).value);
    }
    match p {
      case NullParam => r := Ok([TAG_NULL] + []);
      case Boolean(b) => r := Ok([TAG_BOOL] + [if b then 1 else 0]);
      case Number(d) =>
        var s;
        if d.integer.Some? && -MAX_SAFE <= d.integer.value <= MAX_SAFE {
          s := EncodeFixed(TAG_INT, I64Bytes(d.integer.value));
        } else {
          s := EncodeFixed(TAG_FLOAT, d.bits);
        }
        r := Ok(s);
      case String(t) => r := EncodeBytes(TAG_TEXT, t);
      case ByteArray(b) => r := EncodeBytes(TAG_BYTES, b);
      case Date(millis) =>
        if millis.None? { return Err(UnsupportedParam); }
        var nanos := millis.value * 1_000_000;
        if !(-TWO_63 <= nanos < TWO_63) { return Err(OutOfRange); }
        var s := EncodeFixed(TAG_TIMESTAMP, I64Bytes(nanos));
        r := Ok(s);
      case NumberArray(items) => r := EncodeVector(items);
      case MixedArray => r := Err(UnsupportedParam);
      case UuidRecord(hex) =>
        var s := EncodeFixed(TAG_UUID, Sixteen(hex));
        r := Ok(s);
      case Record(json) => r := EncodeBytes(TAG_JSON, json);
      case OtherType => r := Err(UnsupportedParam);
    }
  }

  /** The wire values of all parameters, or the first error among them. */
  function Meanings(params: seq<QueryParam>): (r: Result<seq<ParamValue>, ParamError>)
    ensures r.Ok? ==> |r.value| == |params|
    ensures r.Ok? <==> forall i :: 0 <= i < |params| ==> Meaning(params[i]).Ok?
    ensures r.Ok? ==> forall i :: 0 <= i < |params| ==> r.value[i] == Meaning(params[i]).value
  {
    if params == [] then Ok([])
    else
      var rest := Meanings(params[1..]);
      match Meaning(params[0])
      case Err(e) => Err(e)
      case Ok(v) =>
        assert rest.Err? ==> exists i :: 0 <= i < |params[1..]| && Meaning(params[1..][i]).Err?;
        assert forall i :: 0 <= i < |params[1..]| ==> params[1..][i] == params[i + 1];
        match rest
        case Err(e) => Err(e)
        case Ok(vs) => Ok([v] + vs)
  }

  lemma {:induction false} FirstErrorWins(params: seq<QueryParam>, i: nat)
    requires i < |params| && Meaning(params[i]).Err?
    requires forall j :: 0 <= j < i ==> Meaning(params[j]).Ok?
    ensures Meanings(params).Err? && Meanings(params).error == Meaning(params[i]).error
    decreases i
  {
    if i > 0 { FirstErrorWins(params[1..], i - 1); }
  }

  /** Encodes the parameters in order, stopping at the first that cannot be. */
  method EncodeValues(params: seq<QueryParam>) returns (r: Result<seq<seq<byte>>, ParamError>)
    ensures
      match Meanings(params)
      case Ok(vs) => r.Ok? && r.value == Encodings(vs)
      case Err(e) => r == Err(e)
  {
    hide ValueBytes;
    var values: seq<seq<byte>> := [];
    for i := 0 to |params|
      invariant |values| == i
      invariant forall j :: 0 <= j < i ==> Meaning(params[j]).Ok? && values[j] == ValueBytes(Meaning(params[j]).value)
    {
      var value := EncodeValue(params[i]);
      if value.Err? {
        FirstErrorWins(params, i);
        return Err(value.error);
      }
      values := values + [value.value];
    }
    r := Ok(values);
  }

  function Encodings(vs: seq<ParamValue>): (s: seq<seq<byte>>)
    ensures |s| == |vs|
    ensures forall i :: 0 <= i < |vs| ==> s[i] == ValueBytes(vs[i])
    ensures Join(s) == AllBytes(vs)
  {
    if vs == [] then []
    else
      var s := [ValueBytes(vs[0])] + Encodings(vs[1..]);
      assert s[1..] == Encodings(vs[1..]);
      s
  }

  function Join(values: seq<seq<byte>>): seq<byte> {
    if values == [] then [] else values[0] + Join(values[1..])
  }

  lemma {:induction false} JoinAppend(values: seq<seq<byte>>, i: nat)
    requires i < |values|
    ensures Join(values[..i + 1]) == Join(values[..i]) + values[i]
    decreases i
  {
    if i == 0 {
      assert values[..1] == [values[0]];
      assert Join([values[0]]) == values[0] + Join([]);
    } else {
      JoinAppend(values[1..], i - 1);
      assert values[1..][..i] == values[..i + 1][1..];
      assert values[1..][..i - 1] == values[..i][1..];
    }
  }

  method TotalLength(values: seq<seq<byte>>) returns (n: nat)
    ensures n == |Join(values)|
  {
    n := 0;
    for i := 0 to |values|
      invariant n == |Join(values[..i])|
    {
      JoinAppend(values, i);
      n := n + |values[i]|;
    }
    assert values[..|values|] == values;
  }

  /** The whole payload: SQL and parameters, each behind its length. */
  method EncodeQueryWithParams(sql: seq<byte>, params: seq<QueryParam>) returns (r: Result<seq<byte>, ParamError>)
    ensures r.Ok? <==> |params| <= MAX_PARAM_COUNT && Meanings(params).Ok? && |sql| < TWO_32
    ensures r.Ok? ==> r.value == QueryBytes(sql, Meanings(params).value)
    ensures r.Err? ==> r.error == if |params| > MAX_PARAM_COUNT then ParamCount(|params|)
                                  else if Meanings(params).Err? then Meanings(params).error
                                  else OutOfRange
    // The same without the intermediate values.
    ensures r.Ok? <==> |params| <= 65_536 && NoneRefused(params) && |sql| < 0x1_0000_0000
    ensures r.Ok? ==> forall utf8 :: TextsValid(utf8, sql, params) ==> Understood(utf8, r.value, sql, params)
    ensures r.Err? && |params| > 65_536 ==> r.error == ParamCount(|params|)
    ensures r.Err? && |params| <= 65_536 ==>
              if NoneRefused(params) then r.error == OutOfRange else exists i: nat :: FirstRefused(params, i, r.error)
  {
    hide LittleEndian, AllBytes, Join, QueryBytes, Understood, TextsValid, Meaning, Refusal;
    RefusalsExactly(params);
    if |params| > MAX_PARAM_COUNT { return Err(ParamCount(|params|)); }
    var values := EncodeValues(params);
    if values.Err? { return Err(values.error); }
    if |sql| >= TWO_32 { return Err(OutOfRange); }
    var out := FillQuery(sql, values.value);
    r := Ok(out);
    assert out == QueryBytes(sql, Meanings(params).value) by { QueryBytesAre(sql, Meanings(params).value); }
    forall utf8 | TextsValid(utf8, sql, params) ensures Understood(utf8, out, sql, params) {
      QueryIsUnderstood(utf8, sql, params);
    }
  }

  lemma QueryBytesAre(sql: seq<byte>, vs: seq<ParamValue>)
    ensures QueryBytes(sql, vs) == LittleEndian(|sql|, 4) + (sql + (LittleEndian(|vs|, 4) + AllBytes(vs)))
  {
  }

  lemma QueryIsUnderstood(utf8: seq<byte> -> bool, sql: seq<byte>, params: seq<QueryParam>)
    requires |params| <= MAX_PARAM_COUNT && Meanings(params).Ok? && |sql| < TWO_32
    requires TextsValid(utf8, sql, params)
    ensures Understood(utf8, QueryBytes(sql, Meanings(params).value), sql, params)
  {
    hide QueryBytes, DecodeQuery, Meaning, StandsFor;
    ServerDecodesDriverQuery(utf8, sql, params);
    forall i | 0 <= i < |params| ensures StandsFor(Meanings(params).value[i], params[i]) {
      MeaningExactly(params[i]);
    }
  }

  lemma {:induction false} RefusalsExactly(params: seq<QueryParam>)
    ensures Meanings(params).Ok? <==> NoneRefused(params)
    ensures Meanings(params).Err? ==> exists i: nat :: FirstRefused(params, i, Meanings(params).error)
    decreases |params|
  {
    hide Meaning, Refusal;
    forall i | 0 <= i < |params|
      ensures Meaning(params[i]).Ok? <==> Refusal(params[i]).None?
      ensures Meaning(params[i]).Err? ==> Refusal(params[i]) == Some(Meaning(params[i]).error)
    {
      MeaningExactly(params[i]);
    }
    if Meanings(params).Err? {
      var i := FirstError(params, 0);
      FirstErrorWins(params, i);
      assert FirstRefused(params, i, Meanings(params).error);
    }
  }

  lemma {:induction false} FirstError(params: seq<QueryParam>, from: nat) returns (i: nat)
    requires from <= |params| && (forall j :: 0 <= j < from ==> Meaning(params[j]).Ok?)
    requires exists j :: 0 <= j < |params| && Meaning(params[j]).Err?
    ensures i < |params| && Meaning(params[i]).Err? && forall j :: 0 <= j < i ==> Meaning(params[j]).Ok?
    decreases |params| - from
  {
    hide Meaning;
    if from < |params| && Meaning(params[from]).Err? { i := from; } else { i := FirstError(params, from + 1); }
  }

  method FillQuery(sql: seq<byte>, values: seq<seq<byte>>) returns (s: seq<byte>)
    ensures s == LittleEndian(|sql|, 4) + (sql + (LittleEndian(|values|, 4) + Join(values)))
  {
    hide LittleEndian, Join;
    var size := TotalLength(values);
    var out := new byte[4 + |sql| + 4 + size](i => 0);
    assert out[..0] == [];
    CopyInto(LittleEndian(|sql|, 4), out, 0);
    CopyInto(sql, out, 4);
    CopyInto(LittleEndian(|values|, 4), out, 4 + |sql|);
    CopyAll(values, out, 4 + |sql| + 4);
    s := out[..];
    assert [] + LittleEndian(|sql|, 4) + sql + LittleEndian(|values|, 4) + Join(values) ==
           LittleEndian(|sql|, 4) + (sql + (LittleEndian(|values|, 4) + Join(values)));
  }

  method CopyAll(values: seq<seq<byte>>, out: array<byte>, start: nat)
    requires out.Length == start + |Join(values)|
    modifies out
    ensures out[..] == old(out[..start]) + Join(values)
  {
    var pos := start;
    JoinPrefix(values, 0);
    for i := 0 to |values|
      invariant pos == start + |Join(values[..i])| <= out.Length
      invariant out[..pos] == old(out[..start]) + Join(values[..i])
    {
      hide Join;
      JoinAppend(values, i);
      JoinPrefix(values, i + 1);
      CopyInto(values[i], out, pos);
      assert old(out[..start]) + Join(values[..i]) + values[i] == old(out[..start]) + (Join(values[..i]) + values[i]);
      pos := pos + |values[i]|;
    }
    assert values[..|values|] == values && out[..] == out[..pos];
  }

  lemma {:induction false} JoinPrefix(values: seq<seq<byte>>, i: nat)
    requires i <= |values|
    ensures |Join(values[..i])| <= |Join(values)|
    ensures i == 0 ==> Join(values[..i]) == []
    decreases |values| - i
  {
    if i < |values| {
      JoinAppend(values, i);
      JoinPrefix(values, i + 1);
    } else {
      assert values[..i] == values;
    }
  }

  lemma MeaningFits(p: QueryParam)
    requires Meaning(p).Ok?
    ensures LengthFits(Meaning(p).value)
    ensures Meaning(p).value.Text? ==> p.String? && p.utf8 == Meaning(p).value.utf8
  {
  }

  /** Whatever the driver manages to encode, the server decodes to the same SQL
      and to the parameters' wire values, with no options. */
  lemma ServerDecodesDriverQuery(utf8: seq<byte> -> bool, sql: seq<byte>, params: seq<QueryParam>)
    requires |params| <= MAX_PARAM_COUNT && Meanings(params).Ok? && |sql| < TWO_32
    requires utf8(sql)
    requires forall i :: 0 <= i < |params| && params[i].String? ==> utf8(params[i].utf8)
    ensures
      var vs := Meanings(params).value;
      DecodeQuery(utf8, QueryBytes(sql, vs)) == Ok(QueryRequest(sql, vs, None))
  {
    hide QueryBytes, DecodeQuery, Meaning;
    var vs := Meanings(params).value;
    forall i | 0 <= i < |vs| ensures LengthFits(vs[i]) && TextValid(utf8, vs[i]) {
      MeaningFits(params[i]);
    }
    QueryRoundTrip(utf8, sql, vs);
  }
}
