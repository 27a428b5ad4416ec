/** The Thatch wire format: what generated writers, readers and the skip routine compute. */
module Wire {
  import opened Wrappers
  import opened Bytes
  import opened Schema

  datatype Val =
    | Blob(data: seq<Byte>)                   // string, list<u8>
    | Bool(b: bool)
    | Raw(bytes: seq<Byte>)                   // a number, handle, enum or flags in memory order
    | Items(count: nat, encoded: seq<Byte>)   // list<T>: a count and the encoded elements
    | Absent
    | Present(value: Val)
    | Good(okValue: Option<Val>)
    | Bad(errValue: Option<Val>)
    | Group(parts: seq<Val>)                  // record fields, tuple elements
    | Case(tag: nat, payload: Option<Val>)

  // ---- Region read primitives ----

  function ReadTag(b: Image, c: nat): Result<(Byte, nat)> {
    if c >= |b| then Failure(ErrRange) else Success((b[c], c + 1))
  }

  function ReadData(b: Image, c: nat, len: nat): Result<(seq<Byte>, nat)> {
    if c > |b| || len > |b| - c then Failure(ErrRange) else Success((b[c..c + len], c + len))
  }

  function Advance(b: Image, c: nat, len: nat): Result<nat> {
    if c > |b| || len > |b| - c then Failure(ErrRange) else Success(c + len)
  }

  function ReadU32(b: Image, c: nat): Result<(U32, nat)> {
    var (d, c1) :- ReadData(b, c, 4);
    Success((FromLE32(d), c1))
  }

  // ---- Skip ----

  /** How many payload bytes follow a fixed-size tag. */
  function FixedSize(tag: Byte): Option<nat> {
    if tag in {0x20, 0x21, 0x12} then Some(1)
    else if tag in {0x22, 0x23} then Some(2)
    else if tag in {0x24, 0x25, 0x28, 0x13, 0x2E} then Some(4)
    else if tag in {0x26, 0x27, 0x29} then Some(8)
    else if tag in {TAG_BOOL_TRUE, TAG_BOOL_FALSE, TAG_OPTION_NONE} then Some(0)
    else None
  }

  /** Tags followed by a 4-byte length and that many bytes. */
  predicate IsLengthPrefixed(tag: Byte) {
    tag in {TAG_STRING, TAG_BYTES, TAG_RECORD, TAG_TUPLE, TAG_LIST, TAG_VARIANT}
  }

  function Skip(b: Image, c: nat): Result<nat>
    decreases |b| - c
  {
    var (tag, c1) :- ReadTag(b, c);
    if FixedSize(tag).Some? then Advance(b, c1, FixedSize(tag).value)
    else if IsLengthPrefixed(tag) then
      var (len, c2) :- ReadU32(b, c1);
      Advance(b, c2, len)
    else if tag in {TAG_OPTION_SOME, TAG_RESULT_OK, TAG_RESULT_ERR} then Skip(b, c1)
    else Failure(ErrType)
  }

  /** `n` consecutive skips. */
  function SkipMany(b: Image, c: nat, n: nat): Result<nat>
    decreases n
  {
    if n == 0 then Success(c)
    else
      var c1 :- Skip(b, c);
      SkipMany(b, c1, n - 1)
  }

  // ---- Writer ----

  function Segment(tag: Byte, body: seq<Byte>): seq<Byte> {
    [tag] + LE32(|body|) + body
  }

  /** The values a generated struct of type `t` can hold and its writer accepts. */
  predicate WellTyped(t: Ty, v: Val)
    decreases t, 1
  {
    match t
    case Alias(u) => WellTyped(u, v)
    case Borrow(u) => WellTyped(u, v)
    case Text => v.Blob? && |v.data| < U32_BOUND
    case Boolean => v.Bool?
    case Scalar(p) => v.Raw? && |v.bytes| == p.Size()
    case List(e) =>
      if IsListOfU8(e) then v.Blob? && |v.data| < U32_BOUND
      else v.Items? && v.count < U32_BOUND && |v.encoded| < U32_BOUND
           && SkipMany(v.encoded, 0, v.count) == Success(|v.encoded|)
    case Opt(u) => v.Absent? || (v.Present? && WellTyped(u, v.value))
    case Res(ok, err) =>
      (v.Good? && WellTypedOpt(ok, v.okValue)) || (v.Bad? && WellTypedOpt(err, v.errValue))
    case Tuple(ts) => v.Group? && WellTypedAll(ts, v.parts)
    case Record(_, ts) => v.Group? && WellTypedAll(ts, v.parts)
    case Variant(_, ps) =>
      v.Case? && v.tag < |ps| && v.tag < 256 && WellTypedOpt(ps[v.tag], v.payload)
  }

  predicate WellTypedOpt(t: Option<Ty>, v: Option<Val>)
    decreases t, 0
  {
    match t
    case None => v.None?
    case Some(u) => v.Some? && WellTyped(u, v.value)
  }

  predicate WellTypedAll(ts: seq<Ty>, vs: seq<Val>)
    decreases ts, 0
  {
    if ts == [] then vs == []
    else vs != [] && WellTyped(ts[0], vs[0]) && WellTypedAll(ts[1..], vs[1..])
  }

  function Encode(t: Ty, v: Val): (e: seq<Byte>)
    requires WellTyped(t, v)
    decreases t, 1
  {
    match t
    case Alias(u) => Encode(u, v)
    case Borrow(u) => Encode(u, v)
    case Text => Segment(TAG_STRING, v.data)
    case Boolean => [if v.b then TAG_BOOL_TRUE else TAG_BOOL_FALSE]
    case Scalar(p) => [p.Tag()] + v.bytes
    case List(e) =>
      if IsListOfU8(e) then Segment(TAG_BYTES, v.data)
      else Segment(TAG_LIST, LE32(v.count) + v.encoded)
    case Opt(u) => if v.Absent? then [TAG_OPTION_NONE] else [TAG_OPTION_SOME] + Encode(u, v.value)
    case Res(ok, err) =>
      if v.Good? then [TAG_RESULT_OK] + EncodeOpt(ok, v.okValue)
      else [TAG_RESULT_ERR] + EncodeOpt(err, v.errValue)
    case Tuple(ts) => Segment(TAG_TUPLE, EncodeAll(ts, v.parts))
    case Record(_, ts) => Segment(TAG_RECORD, EncodeAll(ts, v.parts))
    case Variant(_, ps) => Segment(TAG_VARIANT, [v.tag] + EncodeOpt(ps[v.tag], v.payload))
  }

  function EncodeOpt(t: Option<Ty>, v: Option<Val>): seq<Byte>
    requires WellTypedOpt(t, v)
    decreases t, 0
  {
    match t
    case None => []
    case Some(u) => Encode(u, v.value)
  }

  function EncodeAll(ts: seq<Ty>, vs: seq<Val>): seq<Byte>
    requires WellTypedAll(ts, vs)
    decreases ts, 0
  {
    if ts == [] then [] else Encode(ts[0], vs[0]) + EncodeAll(ts[1..], vs[1..])
  }

  // ---- Reader ----

  function ExpectTag(b: Image, c: nat, tags: set<Byte>): Result<nat> {
    var (tag, c1) :- ReadTag(b, c);
    if tag in tags then Success(c1) else Failure(ErrType)
  }

  /** A segment header: the cursor behind it and the end the body must reach. */
  function OpenSegment(b: Image, c: nat, tag: Byte): Result<(nat, nat)> {
    var c1 :- ExpectTag(b, c, {tag});
    var (len, c2) :- ReadU32(b, c1);
    if len > |b| - c2 then Failure(ErrRange) else Success((c2, c2 + len))
  }

  function DecodeBlob(b: Image, c: nat): Result<(Val, nat)> {
    var c1 :- ExpectTag(b, c, {TAG_STRING, TAG_BYTES});
    var (len, c2) :- ReadU32(b, c1);
    var (d, c3) :- ReadData(b, c2, len);
    Success((Blob(d), c3))
  }

  /** The byte length of the elements is a 32-bit subtraction and wraps when the
      segment is shorter than its own count field. */
  function DecodeList(b: Image, c: nat): Result<(Val, nat)> {
    var (c1, end) :- OpenSegment(b, c, TAG_LIST);
    var (count, c2) :- ReadU32(b, c1);
    var byteLen := U32Difference(end, c2);
    var (d, c3) :- ReadData(b, c2, byteLen);
    var stop :- SkipMany(d, 0, count);
    if stop != byteLen || c3 != end then Failure(ErrType) else Success((Items(count, d), c3))
  }

  function Decode(b: Image, c: nat, t: Ty): Result<(Val, nat)>
    decreases t, 1
  {
    match t
    case Alias(u) => Decode(b, c, u)
    case Borrow(u) => Decode(b, c, u)
    case Text => DecodeBlob(b, c)
    case Boolean =>
      var (tag, c1) :- ReadTag(b, c);
      if tag == TAG_BOOL_TRUE then Success((Bool(true), c1))
      else if tag == TAG_BOOL_FALSE then Success((Bool(false), c1))
      else Failure(ErrType)
    case Scalar(p) =>
      var c1 :- ExpectTag(b, c, {p.Tag()});
      var (d, c2) :- ReadData(b, c1, p.Size());
      Success((Raw(d), c2))
    case List(e) => if IsListOfU8(e) then DecodeBlob(b, c) else DecodeList(b, c)
    case Opt(u) =>
      var (tag, c1) :- ReadTag(b, c);
      if tag == TAG_OPTION_SOME then
        var (v, c2) :- Decode(b, c1, u);
        Success((Present(v), c2))
      else if tag == TAG_OPTION_NONE then Success((Absent, c1))
      else Failure(ErrType)
    case Res(ok, err) =>
      var (tag, c1) :- ReadTag(b, c);
      if tag == TAG_RESULT_OK then
        var (v, c2) :- DecodeOpt(b, c1, ok);
        Success((Good(v), c2))
      else if tag == TAG_RESULT_ERR then
        var (v, c2) :- DecodeOpt(b, c1, err);
        Success((Bad(v), c2))
      else Failure(ErrType)
    case Tuple(ts) => DecodeGroup(b, c, TAG_TUPLE, ts)
    case Record(_, ts) => DecodeGroup(b, c, TAG_RECORD, ts)
    case Variant(_, ps) => DecodeVariant(b, c, ps)
  }

  /** The members of a record or tuple in one segment. */
  function DecodeGroup(b: Image, c: nat, tag: Byte, ts: seq<Ty>): Result<(Val, nat)>
    decreases ts, 1
  {
    var (c1, end) :- OpenSegment(b, c, tag);
    var (vs, c2) :- DecodeAll(b, c1, ts);
    if c2 != end then Failure(ErrType) else Success((Group(vs), c2))
  }

  function DecodeVariant(b: Image, c: nat, ps: seq<Option<Ty>>): Result<(Val, nat)>
    decreases ps, 1
  {
    var (c1, end) :- OpenSegment(b, c, TAG_VARIANT);
    var (tag, c2) :- ReadTag(b, c1);
    if tag >= |ps| then Failure(ErrType)
    else
      var (v, c3) :- DecodeOpt(b, c2, ps[tag]);
      if c3 != end then Failure(ErrType) else Success((Case(tag, v), c3))
  }

  function DecodeOpt(b: Image, c: nat, t: Option<Ty>): Result<(Option<Val>, nat)>
    decreases t, 0
  {
    match t
    case None => Success((None, c))
    case Some(u) =>
      var (v, c1) :- Decode(b, c, u);
      Success((Some(v), c1))
  }

  function DecodeAll(b: Image, c: nat, ts: seq<Ty>): Result<(seq<Val>, nat)>
    decreases ts, 0
  {
    if ts == [] then Success(([], c))
    else
      var (v, c1) :- Decode(b, c, ts[0]);
      var (vs, c2) :- DecodeAll(b, c1, ts[1..]);
      Success(([v] + vs, c2))
  }
}
