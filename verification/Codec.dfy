/** The generated writers, readers and skip routine, as the statements they execute. */
module Codec {
  import opened Wrappers
  import opened Bytes
  import opened Schema
  import opened Wire
  import opened Layout
  import opened Structs
  import opened Regions

  // ---- Skip ----

  method SkipValue(b: Image, c: nat) returns (r: Result<nat>)
    ensures r == Skip(b, c)
    decreases |b| - c
  {
    var first :- ReadTag(b, c);
    var (tag, cur) := first;
    if FixedSize(tag).Some? {
      r := Advance(b, cur, FixedSize(tag).value);
    } else if IsLengthPrefixed(tag) {
      var header :- ReadU32(b, cur);
      r := Advance(b, header.1, header.0);
    } else if tag == TAG_OPTION_SOME || tag == TAG_RESULT_OK || tag == TAG_RESULT_ERR {
      r := SkipValue(b, cur);
    } else {
      r := Failure(ErrType);
    }
  }

  /** The element loop of list writers and readers. */
  method SkipValues(b: Image, n: nat) returns (r: Result<nat>)
    ensures r == SkipMany(b, 0, n)
  {
    var cur := 0;
    for i := 0 to n
      invariant SkipMany(b, 0, n) == SkipMany(b, cur, n - i)
    {
      cur :- SkipValue(b, cur);
    }
    return Success(cur);
  }

  // ---- Writer ----

  /** The bytes a struct's writer owes, or the error it must return. */
  function Encoded(s: Cells, t: Ty, access: string, sep: string): Result<seq<Byte>> {
    var v :- Load(s, t, access, sep);
    Success(Encode(t, v))
  }

  function EncodedAll(s: Cells, ts: seq<Ty>, accesses: seq<string>): Result<seq<Byte>>
    requires |ts| == |accesses|
  {
    var vs :- LoadAll(s, ts, accesses);
    Success(EncodeAll(ts, vs))
  }

  function EncodedOpt(s: Cells, t: Option<Ty>, access: string, sep: string): Result<seq<Byte>> {
    var v :- LoadOpt(s, t, access, sep);
    Success(EncodeOpt(t, v))
  }

  function EncodedCase(s: Cells, p: Option<Ty>, name: string, prefix: string): Result<seq<Byte>> {
    var v :- LoadCase(s, p, name, prefix);
    Success(EncodeOpt(p, v))
  }

  /** A writer call took the region from `before` to `after`: on success it appended exactly
      the wanted bytes, it ran out of room only if they do not fit, and any other error is
      the wanted one. What was written earlier stays. */
  predicate Wrote(r: Result<()>, want: Result<seq<Byte>>, before: seq<Byte>, after: seq<Byte>, capacity: nat) {
    && (r.Success? ==> want.Success? && after == before + want.value)
    && (r == Failure(ErrOom) ==> want.Failure? || |before| + |want.value| > capacity)
    && (r.Failure? && r.error != ErrOom ==> want == Failure(r.error))
    && before <= after
  }

  function Then(w1: Result<seq<Byte>>, w2: Result<seq<Byte>>): Result<seq<Byte>> {
    var e1 :- w1;
    var e2 :- w2;
    Success(e1 + e2)
  }

  function InSegment(tag: Byte, want: Result<seq<Byte>>): Result<seq<Byte>> {
    var e :- want;
    Success(Segment(tag, e))
  }

  /** Bytes that went out before a call are part of what was wanted in all. */
  lemma WroteAfter(r: Result<()>, e: seq<Byte>, want: Result<seq<Byte>>, before: seq<Byte>, mid: seq<Byte>,
                   after: seq<Byte>, capacity: nat)
    requires mid == before + e && Wrote(r, want, mid, after, capacity)
    ensures Wrote(r, Then(Success(e), want), before, after, capacity)
  {
    if want.Success? {
      assert before + e + want.value == before + (e + want.value);
    }
  }

  method WriteBytes(region: Region, tag: Byte, data: seq<Byte>) returns (r: Result<()>)
    requires region.Valid()
    modifies region`head, region.page
    ensures region.Valid()
    ensures Wrote(r, Success([tag] + data), old(region.Contents()), region.Contents(), region.page.Length)
  {
    var _ :- region.WriteTag(tag);
    r := region.WriteData(data);
  }

  method WriteBlob(region: Region, s: Cells, tag: Byte, base: string) returns (r: Result<()>)
    requires region.Valid()
    modifies region`head, region.page
    ensures region.Valid()
    ensures Wrote(r, BlobSegment(tag, LoadBlob(s, base)), old(region.Contents()), region.Contents(), region.page.Length)
  {
    var len := WordAt(s, base + "len");
    var _ :- WriteBytes(region, tag, LE32(len));
    var data :- Deref(PointerAt(s, base + "data"), len);
    r := region.WriteData(data);
  }

  /** Starts a segment; its length field is left open. */
  method BeginSegment(region: Region, tag: Byte) returns (r: Result<nat>)
    requires region.Valid()
    modifies region`head, region.page
    ensures region.Valid() && old(region.Contents()) <= region.Contents()
    ensures r.Failure? ==> r == Failure(ErrOom) && |old(region.Contents())| + 5 > region.page.Length
    ensures r.Success? ==>
              && r.value == |old(region.Contents())| + 1 && |region.Contents()| == r.value + 4
              && region.Contents()[..r.value] == old(region.Contents()) + [tag]
  {
    var _ :- region.WriteTag(tag);
    r := region.ReserveSkip();
  }

  /** Closes the segment whose header begins at `start` and whose body is `body`. */
  method EndSegment(region: Region, loc: nat, ghost start: seq<Byte>, tag: Byte, ghost body: seq<Byte>)
    returns (r: Result<()>)
    requires region.Valid() && loc == |start| + 1
    requires |region.Contents()| == loc + 4 + |body|
    requires region.Contents()[..loc] == start + [tag] && region.Contents()[loc + 4..] == body
    modifies region.page
    ensures region.Valid()
    ensures r.Success? && region.Contents() == start + Segment(tag, body)
  {
    r := region.CommitSkip(loc);
    assert region.Contents() == start + [tag] + LE32(|body|) + body;
    assert start + [tag] + LE32(|body|) + body == start + Segment(tag, body);
  }

  method WriteList(region: Region, s: Cells, base: string) returns (r: Result<()>)
    requires region.Valid()
    modifies region`head, region.page
    ensures region.Valid()
    ensures Wrote(r, ItemsSegment(LoadItems(s, base)), old(region.Contents()), region.Contents(), region.page.Length)
  {
    ghost var start := region.Contents();
    var count := WordAt(s, base + "len");
    var view :- Deref(PointerAt(s, base + "data"), WordAt(s, base + "byte_len"));
    var stop :- SkipValues(view, count);
    if stop != |view| {
      SkipManyErrors(s, base);
      return Failure(ErrType);
    }
    var loc :- BeginSegment(region, TAG_LIST);
    var _ :- WriteItems(region, LE32(count), view);
    r := EndSegment(region, loc, start, TAG_LIST, LE32(count) + view);
  }

  method WriteItems(region: Region, count: seq<Byte>, view: seq<Byte>) returns (r: Result<()>)
    requires region.Valid()
    modifies region`head, region.page
    ensures region.Valid()
    ensures Wrote(r, Success(count + view), old(region.Contents()), region.Contents(), region.page.Length)
  {
    var _ :- region.WriteData(count);
    r := region.WriteData(view);
  }

  function BlobSegment(tag: Byte, v: Result<Val>): Result<seq<Byte>>
    requires v.Success? ==> v.value.Blob?
  {
    var d :- v;
    Success(Segment(tag, d.data))
  }

  function ItemsSegment(v: Result<Val>): Result<seq<Byte>>
    requires v.Success? ==> v.value.Items?
  {
    var d :- v;
    Success(Segment(TAG_LIST, LE32(d.count) + d.encoded))
  }

  function EncodedOption(s: Cells, u: Ty, access: string, sep: string): Result<seq<Byte>> {
    var (has, value) := OptionPaths(access, sep);
    if WordAt(s, has) == 0 then Success([TAG_OPTION_NONE])
    else Then(Success([TAG_OPTION_SOME]), Encoded(s, u, value, sep))
  }

  function EncodedResult(s: Cells, ok: Option<Ty>, err: Option<Ty>, access: string, sep: string): Result<seq<Byte>> {
    var (isOk, okPath, errPath) := ResultPaths(access, sep);
    if WordAt(s, isOk) != 0 then Then(Success([TAG_RESULT_OK]), EncodedOpt(s, ok, okPath, "_"))
    else Then(Success([TAG_RESULT_ERR]), EncodedOpt(s, err, errPath, "_"))
  }

  /** What a struct's writer owes, by the kind of its type. */
  lemma EncodedShape(s: Cells, t: Ty, access: string, sep: string)
    ensures Encoded(s, t, access, sep) ==
            match t
            case Alias(u) => Encoded(s, u, access, sep)
            case Borrow(u) => Encoded(s, u, access, sep)
            case Text => BlobSegment(TAG_STRING, LoadBlob(s, access + sep))
            case Boolean => Success([if WordAt(s, access) != 0 then TAG_BOOL_TRUE else TAG_BOOL_FALSE])
            case Scalar(p) => Success([p.Tag()] + OctetsAt(s, access, p.Size()))
            case List(e) =>
              if IsListOfU8(e) then BlobSegment(TAG_BYTES, LoadBlob(s, access + sep))
              else ItemsSegment(LoadItems(s, access + sep))
            case Opt(u) => EncodedOption(s, u, access, sep)
            case Res(ok, err) => EncodedResult(s, ok, err, access, sep)
            case Tuple(ts) => InSegment(TAG_TUPLE, EncodedAll(s, ts, ElementPaths(access, |ts|)))
            case Record(names, ts) => InSegment(TAG_RECORD, EncodedAll(s, ts, MemberPaths(access + ".", names, |ts|)))
            case Variant(names, ps) => EncodedVariant(s, names, ps, access + ".")
  {
    match t
    case Text =>
    case Boolean =>
    case Scalar(_) =>
    case List(_) =>
    case Opt(_) =>
    case Res(_, _) =>
    case Tuple(ts) => assert Load(s, t, access, sep) == LoadGroup(s, ts, ElementPaths(access, |ts|));
    case Record(names, ts) =>
      assert Load(s, t, access, sep) == LoadGroup(s, ts, MemberPaths(access + ".", names, |ts|));
    case Variant(names, ps) =>
      var tag := OctetsAt(s, access + "." + "case_tag", 1)[0];
      assert Load(s, t, access, sep) == LoadVariant(s, names, ps, access + ".");
    case Alias(_) =>
    case Borrow(_) =>
  }

  method WriteType(region: Region, s: Cells, t: Ty, access: string, sep: string) returns (r: Result<()>)
    requires region.Valid()
    modifies region`head, region.page
    ensures region.Valid()
    ensures Wrote(r, Encoded(s, t, access, sep), old(region.Contents()), region.Contents(), region.page.Length)
    decreases t, 1
  {
    EncodedShape(s, t, access, sep);
    match t
    case Alias(u) => r := WriteType(region, s, u, access, sep);
    case Borrow(u) => r := WriteType(region, s, u, access, sep);
    case Text => r := WriteBlob(region, s, TAG_STRING, access + sep);
    case Boolean => r := region.WriteTag(if WordAt(s, access) != 0 then TAG_BOOL_TRUE else TAG_BOOL_FALSE);
    case Scalar(p) => r := WriteBytes(region, p.Tag(), OctetsAt(s, access, p.Size()));
    case List(e) =>
      if IsListOfU8(e) {
        r := WriteBlob(region, s, TAG_BYTES, access + sep);
      } else {
        r := WriteList(region, s, access + sep);
      }
    case Opt(u) => r := WriteOption(region, s, u, access, sep);
    case Res(ok, err) => r := WriteResult(region, s, ok, err, access, sep);
    case Tuple(ts) => r := WriteGroup(region, s, TAG_TUPLE, ts, ElementPaths(access, |ts|));
    case Record(names, ts) => r := WriteGroup(region, s, TAG_RECORD, ts, MemberPaths(access + ".", names, |ts|));
    case Variant(names, ps) => r := WriteVariant(region, s, names, ps, access + ".");
  }

  method WriteOption(region: Region, s: Cells, u: Ty, access: string, sep: string) returns (r: Result<()>)
    requires region.Valid()
    modifies region`head, region.page
    ensures region.Valid()
    ensures Wrote(r, EncodedOption(s, u, access, sep), old(region.Contents()), region.Contents(), region.page.Length)
    decreases u, 2
  {
    var (has, value) := OptionPaths(access, sep);
    if WordAt(s, has) != 0 {
      var _ :- region.WriteTag(TAG_OPTION_SOME);
      r := WriteType(region, s, u, value, sep);
    } else {
      r := region.WriteTag(TAG_OPTION_NONE);
    }
  }

  method WriteResult(region: Region, s: Cells, ok: Option<Ty>, err: Option<Ty>, access: string, sep: string)
    returns (r: Result<()>)
    requires region.Valid()
    modifies region`head, region.page
    ensures region.Valid()
    ensures Wrote(r, EncodedResult(s, ok, err, access, sep), old(region.Contents()), region.Contents(),
                  region.page.Length)
    decreases Res(ok, err), 0
  {
    var (isOk, okPath, errPath) := ResultPaths(access, sep);
    if WordAt(s, isOk) != 0 {
      r := WriteArm(region, s, TAG_RESULT_OK, ok, okPath);
    } else {
      r := WriteArm(region, s, TAG_RESULT_ERR, err, errPath);
    }
  }

  method WriteArm(region: Region, s: Cells, tag: Byte, t: Option<Ty>, access: string) returns (r: Result<()>)
    requires region.Valid()
    modifies region`head, region.page
    ensures region.Valid()
    ensures Wrote(r, Then(Success([tag]), EncodedOpt(s, t, access, "_")), old(region.Contents()), region.Contents(),
                  region.page.Length)
    decreases t, 3
  {
    ghost var before := region.Contents();
    var _ :- region.WriteTag(tag);
    ghost var mid := region.Contents();
    r := WriteOpt(region, s, t, access);
    WroteAfter(r, [tag], EncodedOpt(s, t, access, "_"), before, mid, region.Contents(), region.page.Length);
  }

  method WriteOpt(region: Region, s: Cells, t: Option<Ty>, access: string) returns (r: Result<()>)
    requires region.Valid()
    modifies region`head, region.page
    ensures region.Valid()
    ensures Wrote(r, EncodedOpt(s, t, access, "_"), old(region.Contents()), region.Contents(), region.page.Length)
    decreases t, 2
  {
    if t.Some? {
      r := WriteType(region, s, t.value, access, "_");
    } else {
      r := Success(());
    }
  }

  /** Records and tuples: the members in order inside one segment. */
  method WriteGroup(region: Region, s: Cells, tag: Byte, ts: seq<Ty>, accesses: seq<string>) returns (r: Result<()>)
    requires region.Valid() && |ts| == |accesses|
    modifies region`head, region.page
    ensures region.Valid()
    ensures Wrote(r, InSegment(tag, EncodedAll(s, ts, accesses)), old(region.Contents()), region.Contents(),
                  region.page.Length)
    decreases ts, 1
  {
    ghost var start := region.Contents();
    var loc :- BeginSegment(region, tag);
    var _ :- WriteAll(region, s, ts, accesses);
    r := EndSegment(region, loc, start, tag, EncodedAll(s, ts, accesses).value);
  }

  method WriteAll(region: Region, s: Cells, ts: seq<Ty>, accesses: seq<string>) returns (r: Result<()>)
    requires region.Valid() && |ts| == |accesses|
    modifies region`head, region.page
    ensures region.Valid()
    ensures Wrote(r, EncodedAll(s, ts, accesses), old(region.Contents()), region.Contents(), region.page.Length)
    decreases ts, 0
  {
    EncodedAllSteps(s, ts, accesses);
    if ts == [] {
      r := Success(());
    } else {
      var _ :- WriteType(region, s, ts[0], accesses[0], "_");
      r := WriteAll(region, s, ts[1..], accesses[1..]);
    }
  }

  lemma EncodedAllSteps(s: Cells, ts: seq<Ty>, accesses: seq<string>)
    requires |ts| == |accesses|
    ensures EncodedAll(s, ts, accesses) ==
            if ts == [] then Success([])
            else Then(Encoded(s, ts[0], accesses[0], "_"), EncodedAll(s, ts[1..], accesses[1..]))
  {
    if ts != [] && LoadAll(s, ts, accesses).Success? {
      var vs := LoadAll(s, ts, accesses).value;
      assert vs[1..] == LoadAll(s, ts[1..], accesses[1..]).value;
    }
  }

  /** `prefix` leads to the variant's own members. */
  method WriteVariant(region: Region, s: Cells, names: seq<string>, ps: seq<Option<Ty>>, prefix: string)
    returns (r: Result<()>)
    requires region.Valid()
    modifies region`head, region.page
    ensures region.Valid()
    ensures Wrote(r, EncodedVariant(s, names, ps, prefix), old(region.Contents()), region.Contents(),
                  region.page.Length)
    decreases ps, 1
  {
    ghost var start := region.Contents();
    var loc :- BeginSegment(region, TAG_VARIANT);
    var _ :- WriteVariantBody(region, s, names, ps, prefix);
    r := EndSegment(region, loc, start, TAG_VARIANT, VariantBody(s, names, ps, prefix).value);
  }

  /** The tag is written before it is looked at. */
  method WriteVariantBody(region: Region, s: Cells, names: seq<string>, ps: seq<Option<Ty>>, prefix: string)
    returns (r: Result<()>)
    requires region.Valid()
    modifies region`head, region.page
    ensures region.Valid()
    ensures Wrote(r, VariantBody(s, names, ps, prefix), old(region.Contents()), region.Contents(), region.page.Length)
    decreases ps, 0
  {
    var tag := OctetsAt(s, prefix + "case_tag", 1)[0];
    ghost var before := region.Contents();
    var _ :- region.WriteTag(tag);
    if tag >= |ps| {
      return Failure(ErrType);
    }
    ghost var mid := region.Contents();
    r := WriteCase(region, s, ps[tag], NameAt(names, tag), prefix);
    WroteAfter(r, [tag], EncodedCase(s, ps[tag], NameAt(names, tag), prefix), before, mid, region.Contents(),
               region.page.Length);
  }

  function VariantBody(s: Cells, names: seq<string>, ps: seq<Option<Ty>>, prefix: string): Result<seq<Byte>> {
    var tag := OctetsAt(s, prefix + "case_tag", 1)[0];
    if tag >= |ps| then Failure(ErrType) else Then(Success([tag]), EncodedCase(s, ps[tag], NameAt(names, tag), prefix))
  }

  function EncodedVariant(s: Cells, names: seq<string>, ps: seq<Option<Ty>>, prefix: string): Result<seq<Byte>> {
    InSegment(TAG_VARIANT, VariantBody(s, names, ps, prefix))
  }

  method WriteCase(region: Region, s: Cells, p: Option<Ty>, name: string, prefix: string) returns (r: Result<()>)
    requires region.Valid()
    modifies region`head, region.page
    ensures region.Valid()
    ensures Wrote(r, EncodedCase(s, p, name, prefix), old(region.Contents()), region.Contents(), region.page.Length)
    decreases p, 2
  {
    if p.Some? {
      var (access, sep) := PayloadAccess(prefix, name, p.value);
      r := WriteType(region, s, p.value, access, sep);
    } else {
      r := Success(());
    }
  }
}
