/** The generated readers: they advance a cursor over a region and fill a struct in place. */
module ReaderCodec {
  import opened Wrappers
  import opened Bytes
  import opened Schema
  import opened Wire
  import opened Layout
  import opened Sequences
  import opened Structs
  import opened Regions
  import opened WireTheorems
  import opened LayoutTheorems
  import opened LayoutDistinct
  import Codec

  /** A reader call took the struct from `before` to `after` and left the cursor at
      `cursor`: it succeeds or fails as the wire format wants, and touches no member but
      those in `ks`. */
  ghost predicate Took<T>(r: Result<()>, want: Result<(T, nat)>, before: Cells, after: Cells, cursor: nat,
                          ks: seq<string>) {
    && (r.Success? <==> want.Success?)
    && (r.Failure? ==> want == Failure(r.error))
    && (r.Success? ==> cursor == want.value.1)
    && SameOutside(before, after, ks)
  }

  class Reader {
    const image: Image
    var cursor: nat
    var out: Cells

    constructor (image: Image, out: Cells)
      ensures this.image == image && cursor == 0 && this.out == out
    {
      this.image := image;
      this.cursor := 0;
      this.out := out;
    }

    // ---- Region primitives ----

    method TakeTag() returns (r: Result<Byte>)
      modifies `cursor
      ensures match ReadTag(image, old(cursor))
              case Success(p) => r == Success(p.0) && cursor == p.1
              case Failure(e) => r == Failure(e) && cursor == old(cursor)
    {
      var p :- ReadTag(image, cursor);
      cursor := p.1;
      return Success(p.0);
    }

    method TakeData(len: nat) returns (r: Result<seq<Byte>>)
      modifies `cursor
      ensures match ReadData(image, old(cursor), len)
              case Success(p) => r == Success(p.0) && cursor == p.1
              case Failure(e) => r == Failure(e) && cursor == old(cursor)
    {
      var p :- ReadData(image, cursor, len);
      cursor := p.1;
      return Success(p.0);
    }

    method TakeU32() returns (r: Result<U32>)
      modifies `cursor
      ensures match ReadU32(image, old(cursor))
              case Success(p) => r == Success(p.0) && cursor == p.1
              case Failure(e) => r == Failure(e) && cursor == old(cursor)
    {
      var d :- TakeData(4);
      return Success(FromLE32(d));
    }

    method TakeExpected(tags: set<Byte>) returns (r: Result<()>)
      modifies `cursor
      ensures match ExpectTag(image, old(cursor), tags)
              case Success(c) => r.Success? && cursor == c
              case Failure(e) => r == Failure(e)
    {
      var tag :- TakeTag();
      if tag !in tags {
        return Failure(ErrType);
      }
      return Success(());
    }

    /** Reads a segment header and returns the end its body must reach. */
    method EnterSegment(tag: Byte) returns (r: Result<nat>)
      modifies `cursor
      ensures match OpenSegment(image, old(cursor), tag)
              case Success(p) => cursor == p.0 && r == Success(p.1)
              case Failure(e) => r == Failure(e)
    {
      var _ :- TakeExpected({tag});
      var len :- TakeU32();
      var remaining := |image| - cursor;
      if len > remaining {
        return Failure(ErrRange);
      }
      return Success(cursor + len);
    }

    // ---- Readers ----

    method ReadBlob(base: string) returns (r: Result<()>)
      modifies this
      ensures Took(r, DecodeBlob(image, old(cursor)), old(out), out, cursor, BlobPaths(base))
      ensures r.Success? ==> LoadBlob(out, base) == Success(DecodeBlob(image, old(cursor)).value.0)
    {
      var _ :- TakeExpected({TAG_STRING, TAG_BYTES});
      var len :- TakeU32();
      DistinctBlobPaths(base);
      out := out[base + "len" := Word(len)];
      var data :- TakeData(len);
      out := out[base + "data" := Pointer(Some(data))];
      assert data[..len] == data;
      return Success(());
    }

    method ReadList(base: string) returns (r: Result<()>)
      modifies this
      ensures Took(r, DecodeList(image, old(cursor)), old(out), out, cursor, BlobPaths(base) + [base + "byte_len"])
      ensures r.Success? ==> LoadItems(out, base) == Success(DecodeList(image, old(cursor)).value.0)
    {
      DistinctListPaths(base);
      var head :- ReadListHead(base);
      var (end, count, byteLen) := head;
      var data :- TakeData(byteLen);
      out := out[base + "data" := Pointer(Some(data))];
      assert data[..byteLen] == data;
      r := AcceptItems(data, count, byteLen, end);
    }

    /** Segment end, element count and the byte length that is left, which wraps. */
    method ReadListHead(base: string) returns (r: Result<(nat, U32, U32)>)
      modifies this
      ensures match ListHead(image, old(cursor))
              case Failure(e) => r == Failure(e) && SameOutside(old(out), out, [base + "len"])
              case Success((end, count, at)) =>
                && r == Success((end, count, U32Difference(end, at))) && cursor == at
                && out == old(out)[base + "len" := Word(count)][base + "byte_len" := Word(U32Difference(end, at))]
    {
      var end :- EnterSegment(TAG_LIST);
      var count :- TakeU32();
      var byteLen := U32Difference(end, cursor);
      out := out[base + "len" := Word(count)];
      out := out[base + "byte_len" := Word(byteLen)];
      return Success((end, count, byteLen));
    }

    /** The elements must fill their bytes, and the bytes their segment. */
    method AcceptItems(data: Image, count: nat, byteLen: nat, end: nat) returns (r: Result<()>)
      ensures r == match SkipMany(data, 0, count)
                   case Failure(e) => Failure(e)
                   case Success(stop) => if stop != byteLen || cursor != end then Failure(ErrType) else Success(())
    {
      var stop :- Codec.SkipValues(data, count);
      return if stop != byteLen || cursor != end then Failure(ErrType) else Success(());
    }

    /** A reader that succeeds where the wire format does, leaves the cursor behind the
        value, touches no other member, and leaves the struct holding the value, provided
        the struct declares each touched member once. */
    method ReadType(t: Ty, access: string, sep: string) returns (r: Result<()>)
      modifies this
      ensures Took(r, Decode(image, old(cursor), t), old(out), out, cursor, Paths(t, access, sep))
      ensures r.Success? && Distinct(Paths(t, access, sep)) ==>
                Load(out, t, access, sep) == Success(Decode(image, old(cursor), t).value.0)
      decreases t, 1
    {
      assert access + "." + "case_tag" == access + ".case_tag";
      match t
      case Alias(u) => r := ReadType(u, access, sep);
      case Borrow(u) => r := ReadType(u, access, sep);
      case Text => r := ReadBlob(access + sep);
      case Boolean => r := ReadBool(access);
      case Scalar(p) => r := ReadScalar(p, access);
      case List(e) =>
        if IsListOfU8(e) {
          r := ReadBlob(access + sep);
        } else {
          r := ReadList(access + sep);
        }
      case Opt(u) => r := ReadOption(u, access, sep);
      case Res(ok, err) => r := ReadResult(ok, err, access, sep);
      case Tuple(ts) => r := ReadGroup(TAG_TUPLE, ts, ElementPaths(access, |ts|));
      case Record(names, ts) => r := ReadGroup(TAG_RECORD, ts, MemberPaths(access + ".", names, |ts|));
      case Variant(names, ps) => r := ReadVariant(names, ps, access + ".");
    }

    method ReadScalar(p: Prim, access: string) returns (r: Result<()>)
      modifies this
      ensures Took(r, Decode(image, old(cursor), Scalar(p)), old(out), out, cursor, [access])
      ensures r.Success? ==>
                Load(out, Scalar(p), access, "_") == Success(Decode(image, old(cursor), Scalar(p)).value.0)
    {
      var _ :- TakeExpected({p.Tag()});
      var data :- TakeData(p.Size());
      out := out[access := Octets(data)];
      return Success(());
    }

    method ReadBool(access: string) returns (r: Result<()>)
      modifies this
      ensures Took(r, Decode(image, old(cursor), Boolean), old(out), out, cursor, [access])
      ensures r.Success? ==>
                Load(out, Boolean, access, "_") == Success(Decode(image, old(cursor), Boolean).value.0)
    {
      var tag :- TakeTag();
      if tag == TAG_BOOL_TRUE {
        out := out[access := Word(1)];
      } else if tag == TAG_BOOL_FALSE {
        out := out[access := Word(0)];
      } else {
        return Failure(ErrType);
      }
      return Success(());
    }

    method ReadOption(u: Ty, access: string, sep: string) returns (r: Result<()>)
      modifies this
      ensures Took(r, Decode(image, old(cursor), Opt(u)), old(out), out, cursor, Paths(Opt(u), access, sep))
      ensures r.Success? && Distinct(Paths(Opt(u), access, sep)) ==>
                Load(out, Opt(u), access, sep) == Success(Decode(image, old(cursor), Opt(u)).value.0)
      decreases u, 2
    {
      var (has, value) := OptionPaths(access, sep);
      var tag :- TakeTag();
      if tag == TAG_OPTION_SOME {
        out := out[has := Word(1)];
        r := ReadType(u, value, sep);
        if Distinct(Paths(Opt(u), access, sep)) {
          DistinctConcat([has], Paths(u, value, sep));
          assert has in [has];
        }
      } else if tag == TAG_OPTION_NONE {
        out := out[has := Word(0)];
        r := Success(());
      } else {
        r := Failure(ErrType);
      }
    }

    method ReadResult(ok: Option<Ty>, err: Option<Ty>, access: string, sep: string) returns (r: Result<()>)
      modifies this
      ensures Took(r, Decode(image, old(cursor), Res(ok, err)), old(out), out, cursor, Paths(Res(ok, err), access, sep))
      ensures r.Success? && Distinct(Paths(Res(ok, err), access, sep)) ==>
                Load(out, Res(ok, err), access, sep) == Success(Decode(image, old(cursor), Res(ok, err)).value.0)
      decreases Res(ok, err), 0
    {
      var (isOk, okPath, errPath) := ResultPaths(access, sep);
      if Distinct(Paths(Res(ok, err), access, sep)) {
        DistinctConcat([isOk] + PathsOpt(ok, okPath, "_"), PathsOpt(err, errPath, "_"));
        DistinctConcat([isOk], PathsOpt(ok, okPath, "_"));
      }
      assert isOk in [isOk] && isOk in [isOk] + PathsOpt(ok, okPath, "_");
      var tag :- TakeTag();
      if tag == TAG_RESULT_OK {
        out := out[isOk := Word(1)];
        r := ReadOpt(ok, okPath);
      } else if tag == TAG_RESULT_ERR {
        out := out[isOk := Word(0)];
        r := ReadOpt(err, errPath);
      } else {
        r := Failure(ErrType);
      }
    }

    method ReadOpt(t: Option<Ty>, access: string) returns (r: Result<()>)
      modifies this
      ensures Took(r, DecodeOpt(image, old(cursor), t), old(out), out, cursor, PathsOpt(t, access, "_"))
      ensures r.Success? && Distinct(PathsOpt(t, access, "_")) ==>
                LoadOpt(out, t, access, "_") == Success(DecodeOpt(image, old(cursor), t).value.0)
      decreases t, 2
    {
      if t.Some? {
        r := ReadType(t.value, access, "_");
      } else {
        r := Success(());
      }
    }

    /** Records and tuples: the members in order, which must fill the segment exactly. */
    method ReadGroup(tag: Byte, ts: seq<Ty>, accesses: seq<string>) returns (r: Result<()>)
      requires |ts| == |accesses|
      modifies this
      ensures Took(r, DecodeGroup(image, old(cursor), tag, ts), old(out), out, cursor, PathsAll(ts, accesses))
      ensures r.Success? && Distinct(PathsAll(ts, accesses)) ==>
                LoadGroup(out, ts, accesses) == Success(DecodeGroup(image, old(cursor), tag, ts).value.0)
      decreases ts, 1
    {
      var end :- EnterSegment(tag);
      var _ :- ReadAll(ts, accesses);
      if cursor != end {
        return Failure(ErrType);
      }
      return Success(());
    }

    method ReadAll(ts: seq<Ty>, accesses: seq<string>) returns (r: Result<()>)
      requires |ts| == |accesses|
      modifies this
      ensures Took(r, DecodeAll(image, old(cursor), ts), old(out), out, cursor, PathsAll(ts, accesses))
      ensures r.Success? && Distinct(PathsAll(ts, accesses)) ==>
                LoadAll(out, ts, accesses) == Success(DecodeAll(image, old(cursor), ts).value.0)
      decreases ts, 0
    {
      if ts == [] {
        return Success(());
      }
      var _ :- ReadType(ts[0], accesses[0], "_");
      ghost var held := out;
      var _ :- ReadAll(ts[1..], accesses[1..]);
      if Distinct(PathsAll(ts, accesses)) {
        DistinctConcat(Paths(ts[0], accesses[0], "_"), PathsAll(ts[1..], accesses[1..]));
        LoadFrame(held, out, ts[0], accesses[0], "_");
      }
      return Success(());
    }

    /** `prefix` leads to the variant's own members. */
    method ReadVariant(names: seq<string>, ps: seq<Option<Ty>>, prefix: string) returns (r: Result<()>)
      modifies this
      ensures Took(r, DecodeVariant(image, old(cursor), ps), old(out), out, cursor,
                   [prefix + "case_tag"] + PathsCases(ps, names, prefix))
      ensures r.Success? && Distinct([prefix + "case_tag"] + PathsCases(ps, names, prefix)) ==>
                LoadVariant(out, names, ps, prefix) == Success(DecodeVariant(image, old(cursor), ps).value.0)
      decreases ps, 1
    {
      var end :- EnterSegment(TAG_VARIANT);
      var tag :- TakeTag();
      out := out[prefix + "case_tag" := Octets([tag])];
      if tag >= |ps| {
        return Failure(ErrType);
      }
      CaseAmongCases(ps, names, prefix, tag);
      var _ :- ReadCase(ps[tag], NameAt(names, tag), prefix);
      if cursor != end {
        return Failure(ErrType);
      }
      if Distinct([prefix + "case_tag"] + PathsCases(ps, names, prefix)) {
        DistinctConcat([prefix + "case_tag"], PathsCases(ps, names, prefix));
        assert prefix + "case_tag" in [prefix + "case_tag"];
      }
      return Success(());
    }

    method ReadCase(p: Option<Ty>, name: string, prefix: string) returns (r: Result<()>)
      modifies this
      ensures Took(r, DecodeOpt(image, old(cursor), p), old(out), out, cursor, CasePaths(p, name, prefix))
      ensures r.Success? && Distinct(CasePaths(p, name, prefix)) ==>
                LoadCase(out, p, name, prefix) == Success(DecodeOpt(image, old(cursor), p).value.0)
      decreases p, 2
    {
      if p.Some? {
        var (access, sep) := PayloadAccess(prefix, name, p.value);
        r := ReadType(p.value, access, sep);
      } else {
        r := Success(());
      }
    }
  }

  function ListHead(b: Image, c: nat): Result<(nat, U32, nat)> {
    var (c1, end) :- OpenSegment(b, c, TAG_LIST);
    var (count, c2) :- ReadU32(b, c1);
    Success((end, count, c2))
  }

  lemma {:induction false} CaseAmongCases(ps: seq<Option<Ty>>, names: seq<string>, prefix: string, i: nat)
    requires i < |ps|
    ensures forall k | k in CasePaths(ps[i], NameAt(names, i), prefix) :: k in PathsCases(ps, names, prefix)
    ensures Distinct(PathsCases(ps, names, prefix)) ==> Distinct(CasePaths(ps[i], NameAt(names, i), prefix))
    decreases ps
  {
    var rest := if names == [] then [] else names[1..];
    var first, others := CasePaths(ps[0], NameAt(names, 0), prefix), PathsCases(ps[1..], rest, prefix);
    if i > 0 {
      CaseAmongCases(ps[1..], rest, prefix, i - 1);
      assert NameAt(names, i) == NameAt(rest, i - 1);
    }
    if Distinct(PathsCases(ps, names, prefix)) {
      DistinctConcat(first, others);
    }
  }

  lemma DistinctBlobPaths(base: string)
    ensures base + "data" != base + "len"
  {
    assert |base + "data"| != |base + "len"|;
  }

  lemma DistinctListPaths(base: string)
    ensures base + "data" != base + "len" && base + "len" != base + "byte_len"
    ensures base + "data" != base + "byte_len"
  {
    assert |base + "data"| != |base + "len"| && |base + "byte_len"| > |base + "data"|;
  }

  // ---- Whole structs through the wire ----

  /** A field of a generated struct that declares each member once. */
  predicate WellFormedField(t: Ty, prefix: string, name: string) {
    Anchored(prefix) && Clean(name) && CleanTy(t) && NoNestedOption(t) && MembersApart(t)
  }

  /** Writing a field and reading the bytes back, wherever they land in the region, gives
      a struct whose field holds the same value. */
  method CopyThroughWire(region: Region, s: Cells, t: Ty, prefix: string, name: string, scratch: Cells)
    returns (r: Result<Cells>)
    requires region.Valid() && WellFormedField(t, prefix, name)
    modifies region`head, region.page
    ensures region.Valid()
    ensures r.Success? ==> Load(s, t, prefix + name, "_").Success?
                           && Load(r.value, t, prefix + name, "_") == Load(s, t, prefix + name, "_")
    ensures r.Failure? && r.error != ErrOom ==> Load(s, t, prefix + name, "_") == Failure(r.error)
  {
    PathsOnce(t, prefix, name);
    ghost var before := region.Contents();
    var start := region.head;
    var _ :- Codec.WriteType(region, s, t, prefix + name, "_");
    ghost var v := Load(s, t, prefix + name, "_").value;
    var image := region.page[..region.head];
    assert image == before + Encode(t, v) + [];
    RoundTrip(before, t, v, []);
    var reader := new Reader(image, scratch);
    reader.cursor := start;
    var rc := reader.ReadType(t, prefix + name, "_");
    assert rc.Success?;
    return Success(reader.out);
  }

  /** Reading bytes into a field and writing the field out reproduces the bytes consumed,
      for types without blobs. */
  method Rewrite(image: Image, start: nat, t: Ty, prefix: string, name: string, scratch: Cells, region: Region)
    returns (r: Result<nat>)
    requires region.Valid() && BlobFree(t) && WellFormedField(t, prefix, name)
    modifies region`head, region.page
    ensures region.Valid()
    ensures r.Success? ==> start <= r.value <= |image|
                           && region.Contents() == old(region.Contents()) + image[start..r.value]
    ensures r.Failure? && r.error != ErrOom ==> Decode(image, start, t) == Failure(r.error)
  {
    PathsOnce(t, prefix, name);
    var reader := new Reader(image, scratch);
    reader.cursor := start;
    var _ :- reader.ReadType(t, prefix + name, "_");
    RewriteReproduces(image, start, t);
    var _ :- Codec.WriteType(region, reader.out, t, prefix + name, "_");
    return Success(reader.cursor);
  }

  /** The generated blob validator of a record. */
  method ValidateRecord(data: Option<Image>, len: U32, names: seq<string>, ts: seq<Ty>) returns (ok: bool)
    requires data.Some? ==> |data.value| == len
    ensures ok == ValidateBlob(data, len, Record(names, ts))
  {
    if data.None? && len == 0 {
      return true;
    }
    if data.None? || len == 0 {
      return false;
    }
    var reader := new Reader(data.value, map[]);
    var rc := reader.ReadType(Record(names, ts), "scratch", "_");
    if rc.Failure? {
      return false;
    }
    return reader.cursor == len;
  }
}
