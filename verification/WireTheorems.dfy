/** What the wire format guarantees. */
module WireTheorems {
  import opened Wrappers
  import opened Bytes
  import opened Schema
  import opened Wire

  // ---- Which bytes of an encoding may differ on read ----

  /** Marks the tag bytes of strings and byte lists: a reader takes either tag there. */
  function SegmentMask(body: seq<bool>): seq<bool> {
    [false, false, false, false, false] + body
  }

  function Quiet(n: nat): (m: seq<bool>)
    ensures |m| == n
  {
    seq(n, _ => false)
  }

  function BlobMask(n: nat): (m: seq<bool>)
    ensures |m| == 5 + n
  {
    [true] + Quiet(4 + n)
  }

  function Mask(t: Ty, v: Val): (m: seq<bool>)
    requires WellTyped(t, v)
    ensures |m| == |Encode(t, v)|
    decreases t, 1
  {
    match t
    case Alias(u) => Mask(u, v)
    case Borrow(u) => Mask(u, v)
    case Text => BlobMask(|v.data|)
    case Boolean => [false]
    case Scalar(p) => Quiet(1 + p.Size())
    case List(e) => if IsListOfU8(e) then BlobMask(|v.data|) else Quiet(9 + |v.encoded|)
    case Opt(u) => if v.Absent? then [false] else [false] + Mask(u, v.value)
    case Res(ok, err) =>
      if v.Good? then [false] + MaskOpt(ok, v.okValue) else [false] + MaskOpt(err, v.errValue)
    case Tuple(ts) => SegmentMask(MaskAll(ts, v.parts))
    case Record(_, ts) => SegmentMask(MaskAll(ts, v.parts))
    case Variant(_, ps) => SegmentMask([false] + MaskOpt(ps[v.tag], v.payload))
  }

  function MaskOpt(t: Option<Ty>, v: Option<Val>): (m: seq<bool>)
    requires WellTypedOpt(t, v)
    ensures |m| == |EncodeOpt(t, v)|
    decreases t, 0
  {
    match t
    case None => []
    case Some(u) => Mask(u, v.value)
  }

  function MaskAll(ts: seq<Ty>, vs: seq<Val>): (m: seq<bool>)
    requires WellTypedAll(ts, vs)
    ensures |m| == |EncodeAll(ts, vs)|
    decreases ts, 0
  {
    if ts == [] then [] else Mask(ts[0], vs[0]) + MaskAll(ts[1..], vs[1..])
  }

  predicate IsBlobTag(x: Byte) {
    x == TAG_STRING || x == TAG_BYTES
  }

  /** `b` holds `e` at offset `c`, except that where `m` is set any blob tag will do. */
  predicate MatchAt(b: seq<Byte>, c: nat, e: seq<Byte>, m: seq<bool>)
    requires |e| == |m|
  {
    c + |e| <= |b| && forall i :: 0 <= i < |e| ==> b[c + i] == e[i] || (m[i] && IsBlobTag(b[c + i]))
  }

  lemma MatchConcat(b: seq<Byte>, c: nat, e1: seq<Byte>, m1: seq<bool>, e2: seq<Byte>, m2: seq<bool>)
    requires |e1| == |m1| && |e2| == |m2|
    ensures MatchAt(b, c, e1 + e2, m1 + m2) <==> MatchAt(b, c, e1, m1) && MatchAt(b, c + |e1|, e2, m2)
  {
    var e, m := e1 + e2, m1 + m2;
    if MatchAt(b, c, e, m) {
      forall i | 0 <= i < |e1| ensures b[c + i] == e1[i] || (m1[i] && IsBlobTag(b[c + i])) {
        assert e[i] == e1[i] && m[i] == m1[i];
      }
      forall i | 0 <= i < |e2|
        ensures b[c + |e1| + i] == e2[i] || (m2[i] && IsBlobTag(b[c + |e1| + i]))
      {
        assert e[|e1| + i] == e2[i] && m[|e1| + i] == m2[i];
        assert b[c + (|e1| + i)] == e[|e1| + i] || (m[|e1| + i] && IsBlobTag(b[c + (|e1| + i)]));
      }
    }
    if MatchAt(b, c, e1, m1) && MatchAt(b, c + |e1|, e2, m2) {
      forall i | 0 <= i < |e| ensures b[c + i] == e[i] || (m[i] && IsBlobTag(b[c + i])) {
        if i >= |e1| {
          var j := i - |e1|;
          assert b[c + |e1| + j] == e2[j] || (m2[j] && IsBlobTag(b[c + |e1| + j]));
        }
      }
    }
  }

  lemma MatchQuiet(b: seq<Byte>, c: nat, e: seq<Byte>)
    ensures MatchAt(b, c, e, Quiet(|e|)) <==> c + |e| <= |b| && b[c..c + |e|] == e
  {
    if MatchAt(b, c, e, Quiet(|e|)) {
      assert forall i :: 0 <= i < |e| ==> b[c + i] == e[i];
    }
  }

  lemma MatchOne(b: seq<Byte>, c: nat, x: Byte, flag: bool)
    ensures MatchAt(b, c, [x], [flag]) <==> c < |b| && (b[c] == x || (flag && IsBlobTag(b[c])))
  {
    if MatchAt(b, c, [x], [flag]) {
      assert [x][0] == x && b[c + 0] == b[c];
    }
  }

  lemma PrefixedAt(b: seq<Byte>, c: nat, x: Byte, e: seq<Byte>, m: seq<bool>)
    requires |e| == |m|
    ensures MatchAt(b, c, [x] + e, [false] + m) <==> c < |b| && b[c] == x && MatchAt(b, c + 1, e, m)
  {
    MatchConcat(b, c, [x], [false], e, m);
    MatchOne(b, c, x, false);
  }

  lemma ScalarAt(b: Image, c: nat, p: Prim, d: seq<Byte>)
    requires |d| == p.Size()
    ensures MatchAt(b, c, [p.Tag()] + d, Quiet(1 + p.Size())) <==>
            Decode(b, c, Scalar(p)) == Success((Raw(d), c + 1 + p.Size()))
  {
    assert Quiet(1 + p.Size()) == [false] + Quiet(p.Size());
    PrefixedAt(b, c, p.Tag(), d, Quiet(|d|));
    MatchQuiet(b, c + 1, d);
  }

  lemma U32At(b: Image, c: nat, n: U32)
    ensures MatchAt(b, c, LE32(n), Quiet(4)) <==> ReadU32(b, c) == Success((n, c + 4))
  {
    MatchQuiet(b, c, LE32(n));
    LE32RoundTrip(n);
    if ReadU32(b, c) == Success((n, c + 4)) {
      FromLE32RoundTrip(b[c..c + 4]);
    }
  }

  lemma SegmentHeadAt(b: Image, c: nat, tag: Byte, head: seq<Byte>, body: seq<Byte>, m: seq<bool>)
    requires |body| == |m| && |head| == 4
    ensures MatchAt(b, c, [tag] + head + body, SegmentMask(m)) <==>
            c < |b| && b[c] == tag && MatchAt(b, c + 1, head, Quiet(4)) && MatchAt(b, c + 5, body, m)
  {
    assert [tag] + head + body == [tag] + (head + body);
    assert SegmentMask(m) == [false] + (Quiet(4) + m);
    PrefixedAt(b, c, tag, head + body, Quiet(4) + m);
    MatchConcat(b, c + 1, head, Quiet(4), body, m);
  }

  /** A segment is matched exactly when its header opens it and its body is matched. */
  lemma SegmentAt(b: Image, c: nat, tag: Byte, body: seq<Byte>, m: seq<bool>)
    requires |body| == |m| && |body| < U32_BOUND
    ensures MatchAt(b, c, Segment(tag, body), SegmentMask(m)) <==>
            OpenSegment(b, c, tag) == Success((c + 5, c + 5 + |body|)) && MatchAt(b, c + 5, body, m)
  {
    U32At(b, c + 1, |body|);
    SegmentHeadAt(b, c, tag, LE32(|body|), body, m);
  }

  lemma VariantAt(b: Image, c: nat, tag: Byte, e: seq<Byte>, m: seq<bool>)
    requires |e| == |m| && |e| + 1 < U32_BOUND
    ensures MatchAt(b, c, Segment(TAG_VARIANT, [tag] + e), SegmentMask([false] + m)) <==>
            OpenSegment(b, c, TAG_VARIANT) == Success((c + 5, c + 6 + |e|))
            && ReadTag(b, c + 5) == Success((tag, c + 6)) && MatchAt(b, c + 6, e, m)
  {
    SegmentAt(b, c, TAG_VARIANT, [tag] + e, [false] + m);
    PrefixedAt(b, c + 5, tag, e, m);
  }

  lemma BlobHeadAt(b: Image, c: nat, tag: Byte, head: seq<Byte>, d: seq<Byte>)
    requires |head| == 4
    ensures MatchAt(b, c, [tag] + head + d, BlobMask(|d|)) <==>
            c < |b| && (b[c] == tag || IsBlobTag(b[c])) && MatchAt(b, c + 1, head, Quiet(4))
            && c + 5 + |d| <= |b| && b[c + 5..c + 5 + |d|] == d
  {
    assert [tag] + head + d == [tag] + (head + d);
    assert BlobMask(|d|) == [true] + (Quiet(4) + Quiet(|d|));
    MatchConcat(b, c, [tag], [true], head + d, Quiet(4) + Quiet(|d|));
    MatchConcat(b, c + 1, head, Quiet(4), d, Quiet(|d|));
    MatchOne(b, c, tag, true);
    MatchQuiet(b, c + 5, d);
  }

  lemma DecodedBlob(b: Image, c: nat, d: seq<Byte>)
    requires |d| < U32_BOUND
    ensures DecodeBlob(b, c) == Success((Blob(d), c + 5 + |d|)) <==>
            c < |b| && IsBlobTag(b[c]) && ReadU32(b, c + 1) == Success((|d|, c + 5))
            && c + 5 + |d| <= |b| && b[c + 5..c + 5 + |d|] == d
  {
  }

  lemma BlobAt(b: Image, c: nat, tag: Byte, d: seq<Byte>)
    requires IsBlobTag(tag) && |d| < U32_BOUND
    ensures MatchAt(b, c, Segment(tag, d), BlobMask(|d|)) <==>
            DecodeBlob(b, c) == Success((Blob(d), c + 5 + |d|))
  {
    U32At(b, c + 1, |d|);
    BlobHeadAt(b, c, tag, LE32(|d|), d);
    DecodedBlob(b, c, d);
  }

  /** What the list reader takes. A segment too short for its count field makes the byte
      length wrap, and the wrapped length always runs past the region's end. */
  lemma DecodedList(b: Image, c: nat, count: nat, d: seq<Byte>, next: nat)
    ensures DecodeList(b, c) == Success((Items(count, d), next)) <==>
            && next == c + 9 + |d| <= |b| && b[c + 9..next] == d
            && OpenSegment(b, c, TAG_LIST) == Success((c + 5, next))
            && ReadU32(b, c + 5) == Success((count, c + 9))
            && SkipMany(d, 0, count) == Success(|d|)
  {
  }

  lemma ListBodyAt(b: Image, c: nat, head: seq<Byte>, d: seq<Byte>)
    requires |head| == 4 && |d| + 4 < U32_BOUND
    ensures MatchAt(b, c, Segment(TAG_LIST, head + d), Quiet(9 + |d|)) <==>
            OpenSegment(b, c, TAG_LIST) == Success((c + 5, c + 9 + |d|))
            && MatchAt(b, c + 5, head, Quiet(4))
            && c + 9 + |d| <= |b| && b[c + 9..c + 9 + |d|] == d
  {
    assert Quiet(9 + |d|) == SegmentMask(Quiet(4) + Quiet(|d|));
    SegmentAt(b, c, TAG_LIST, head + d, Quiet(4) + Quiet(|d|));
    MatchConcat(b, c + 5, head, Quiet(4), d, Quiet(|d|));
    MatchQuiet(b, c + 9, d);
  }

  lemma ListHeadAt(b: Image, c: nat, head: seq<Byte>, count: U32, d: seq<Byte>)
    requires |head| == 4 && |d| + 4 < U32_BOUND && SkipMany(d, 0, count) == Success(|d|)
    requires MatchAt(b, c + 5, head, Quiet(4)) <==> ReadU32(b, c + 5) == Success((count, c + 9))
    ensures MatchAt(b, c, Segment(TAG_LIST, head + d), Quiet(9 + |d|)) <==>
            DecodeList(b, c) == Success((Items(count, d), c + 9 + |d|))
  {
    ListBodyAt(b, c, head, d);
    DecodedList(b, c, count, d, c + 9 + |d|);
  }

  /** A list is matched exactly when its reader, with its wrapping subtraction, takes it. */
  lemma ListAt(b: Image, c: nat, count: U32, d: seq<Byte>)
    requires |d| + 4 < U32_BOUND && SkipMany(d, 0, count) == Success(|d|)
    ensures MatchAt(b, c, Segment(TAG_LIST, LE32(count) + d), Quiet(9 + |d|)) <==>
            DecodeList(b, c) == Success((Items(count, d), c + 9 + |d|))
  {
    U32At(b, c + 5, count);
    ListHeadAt(b, c, LE32(count), count, d);
  }

  // ---- Reader and writer determine each other ----

  /** `t`'s reader, if it succeeds at `c`, has consumed an encoding of what it returns. */
  predicate CanonicalAt(b: Image, c: nat, t: Ty) {
    Decode(b, c, t).Success? ==>
      var (v, next) := Decode(b, c, t).value;
      && WellTyped(t, v)
      && MatchAt(b, c, Encode(t, v), Mask(t, v))
      && next == c + |Encode(t, v)|
  }

  /** Whatever a reader accepts is the encoding of what it returns, up to blob tags. */
  lemma {:induction false} Canonical(b: Image, c: nat, t: Ty)
    ensures CanonicalAt(b, c, t)
    decreases t, 1
  {
    match t
    case Alias(u) => Canonical(b, c, u);
    case Borrow(u) => Canonical(b, c, u);
    case Text | Boolean | Scalar(_) => CanonicalLeaf(b, c, t);
    case List(e) => CanonicalList(b, c, e);
    case Opt(u) => CanonicalOption(b, c, u);
    case Res(ok, err) => CanonicalResult(b, c, ok, err);
    case Tuple(ts) => CanonicalGroup(b, c, t, TAG_TUPLE, ts);
    case Record(_, ts) => CanonicalGroup(b, c, t, TAG_RECORD, ts);
    case Variant(_, _) => CanonicalVariant(b, c, t);
  }

  lemma CanonicalLeaf(b: Image, c: nat, t: Ty)
    requires t.Text? || t.Boolean? || t.Scalar?
    ensures CanonicalAt(b, c, t)
  {
    match t
    case Text => CanonicalText(b, c);
    case Boolean =>
      if Decode(b, c, t).Success? {
        MatchOne(b, c, b[c], false);
      }
    case Scalar(p) =>
      if Decode(b, c, t).Success? {
        ScalarAt(b, c, p, Decode(b, c, t).value.0.bytes);
      }
  }

  lemma CanonicalText(b: Image, c: nat)
    ensures CanonicalAt(b, c, Text)
  {
    if DecodeBlob(b, c).Success? {
      BlobAt(b, c, TAG_STRING, DecodeBlob(b, c).value.0.data);
    }
  }

  lemma CanonicalList(b: Image, c: nat, e: Ty)
    ensures CanonicalAt(b, c, List(e))
  {
    if Decode(b, c, List(e)).Success? {
      if IsListOfU8(e) {
        CanonicalBytes(b, c, e);
      } else {
        CanonicalItems(b, c, e);
      }
    }
  }

  lemma CanonicalBytes(b: Image, c: nat, e: Ty)
    requires IsListOfU8(e)
    ensures CanonicalAt(b, c, List(e))
  {
    if DecodeBlob(b, c).Success? {
      BlobAt(b, c, TAG_BYTES, DecodeBlob(b, c).value.0.data);
    }
  }

  lemma CanonicalItems(b: Image, c: nat, e: Ty)
    requires !IsListOfU8(e)
    ensures CanonicalAt(b, c, List(e))
  {
    if DecodeList(b, c).Success? {
      CanonicalGenericList(b, c);
    }
  }

  lemma CanonicalGenericList(b: Image, c: nat)
    requires DecodeList(b, c).Success?
    ensures var (v, next) := DecodeList(b, c).value;
            && v.Items? && v.count < U32_BOUND && next == c + 9 + |v.encoded| < U32_BOUND
            && SkipMany(v.encoded, 0, v.count) == Success(|v.encoded|)
            && MatchAt(b, c, Segment(TAG_LIST, LE32(v.count) + v.encoded), Quiet(9 + |v.encoded|))
  {
    var (v, next) := DecodeList(b, c).value;
    DecodedIsItems(b, c);
    DecodedList(b, c, v.count, v.encoded, next);
    ListAt(b, c, v.count, v.encoded);
  }

  lemma DecodedIsItems(b: Image, c: nat)
    requires DecodeList(b, c).Success?
    ensures DecodeList(b, c).value.0.Items? && DecodeList(b, c).value.0.count < U32_BOUND
  {
  }

  lemma {:induction false} CanonicalOption(b: Image, c: nat, u: Ty)
    ensures CanonicalAt(b, c, Opt(u))
    decreases Opt(u), 0
  {
    if Decode(b, c, Opt(u)).Success? {
      var v := Decode(b, c, Opt(u)).value.0;
      if v.Absent? {
        MatchOne(b, c, TAG_OPTION_NONE, false);
      } else {
        Canonical(b, c + 1, u);
        PrefixedAt(b, c, TAG_OPTION_SOME, Encode(u, v.value), Mask(u, v.value));
      }
    }
  }

  lemma {:induction false} CanonicalResult(b: Image, c: nat, ok: Option<Ty>, err: Option<Ty>)
    ensures CanonicalAt(b, c, Res(ok, err))
    decreases Res(ok, err), 0
  {
    if Decode(b, c, Res(ok, err)).Success? {
      var v := Decode(b, c, Res(ok, err)).value.0;
      if v.Good? {
        CanonicalArm(b, c, TAG_RESULT_OK, ok, v.okValue);
      } else {
        CanonicalArm(b, c, TAG_RESULT_ERR, err, v.errValue);
      }
    }
  }

  lemma {:induction false} CanonicalArm(b: Image, c: nat, tag: Byte, t: Option<Ty>, v: Option<Val>)
    requires c < |b| && b[c] == tag && DecodeOpt(b, c + 1, t).Success? && DecodeOpt(b, c + 1, t).value.0 == v
    ensures WellTypedOpt(t, v) && DecodeOpt(b, c + 1, t).value.1 == c + 1 + |EncodeOpt(t, v)|
    ensures MatchAt(b, c, [tag] + EncodeOpt(t, v), [false] + MaskOpt(t, v))
    decreases t, 1
  {
    CanonicalOpt(b, c + 1, t);
    PrefixedAt(b, c, tag, EncodeOpt(t, v), MaskOpt(t, v));
  }

  lemma {:induction false} CanonicalGroup(b: Image, c: nat, t: Ty, tag: Byte, ts: seq<Ty>)
    requires (t.Tuple? && tag == TAG_TUPLE && t.elems == ts) || (t.Record? && tag == TAG_RECORD && t.fields == ts)
    ensures CanonicalAt(b, c, t)
    decreases t, 0
  {
    assert Decode(b, c, t) == DecodeGroup(b, c, tag, ts);
    if Decode(b, c, t).Success? {
      CanonicalAll(b, c + 5, ts);
      var vs := Decode(b, c, t).value.0.parts;
      SegmentAt(b, c, tag, EncodeAll(ts, vs), MaskAll(ts, vs));
    }
  }

  lemma {:induction false} CanonicalVariant(b: Image, c: nat, t: Ty)
    requires t.Variant?
    ensures CanonicalAt(b, c, t)
    decreases t, 0
  {
    assert Decode(b, c, t) == DecodeVariant(b, c, t.payloads);
    if Decode(b, c, t).Success? {
      var v := Decode(b, c, t).value.0;
      var p := t.payloads[v.tag];
      CanonicalOpt(b, c + 6, p);
      VariantAt(b, c, v.tag, EncodeOpt(p, v.payload), MaskOpt(p, v.payload));
    }
  }

  lemma {:induction false} CanonicalOpt(b: Image, c: nat, t: Option<Ty>)
    requires c <= |b| && DecodeOpt(b, c, t).Success?
    ensures var (v, next) := DecodeOpt(b, c, t).value;
            && WellTypedOpt(t, v)
            && MatchAt(b, c, EncodeOpt(t, v), MaskOpt(t, v))
            && next == c + |EncodeOpt(t, v)|
    decreases t, 0
  {
    if t.Some? {
      Canonical(b, c, t.value);
    }
  }

  lemma {:induction false} CanonicalAll(b: Image, c: nat, ts: seq<Ty>)
    requires c <= |b| && DecodeAll(b, c, ts).Success?
    ensures var (vs, next) := DecodeAll(b, c, ts).value;
            && WellTypedAll(ts, vs)
            && MatchAt(b, c, EncodeAll(ts, vs), MaskAll(ts, vs))
            && next == c + |EncodeAll(ts, vs)|
    decreases ts, 0
  {
    if ts != [] {
      Canonical(b, c, ts[0]);
      var (v, c1) := Decode(b, c, ts[0]).value;
      CanonicalAll(b, c1, ts[1..]);
      var (vs, c2) := DecodeAll(b, c1, ts[1..]).value;
      MatchAll(b, c, ts, v, vs);
    }
  }

  lemma {:induction false} MatchAll(b: Image, c: nat, ts: seq<Ty>, v: Val, vs: seq<Val>)
    requires ts != [] && WellTyped(ts[0], v) && MatchAt(b, c, Encode(ts[0], v), Mask(ts[0], v))
    requires WellTypedAll(ts[1..], vs)
    requires MatchAt(b, c + |Encode(ts[0], v)|, EncodeAll(ts[1..], vs), MaskAll(ts[1..], vs))
    ensures WellTypedAll(ts, [v] + vs) && MatchAt(b, c, EncodeAll(ts, [v] + vs), MaskAll(ts, [v] + vs))
    ensures |EncodeAll(ts, [v] + vs)| == |Encode(ts[0], v)| + |EncodeAll(ts[1..], vs)|
  {
    var e, m, es, ms := Encode(ts[0], v), Mask(ts[0], v), EncodeAll(ts[1..], vs), MaskAll(ts[1..], vs);
    ConsAll(ts, v, vs);
    MatchBoth(b, c, e, m, es, ms, EncodeAll(ts, [v] + vs), MaskAll(ts, [v] + vs));
  }

  lemma MatchBoth(b: Image, c: nat, e: seq<Byte>, m: seq<bool>, es: seq<Byte>, ms: seq<bool>,
                  all: seq<Byte>, mask: seq<bool>)
    requires |e| == |m| && |es| == |ms| && all == e + es && mask == m + ms
    requires MatchAt(b, c, e, m) && MatchAt(b, c + |e|, es, ms)
    ensures MatchAt(b, c, all, mask) && |all| == |e| + |es|
  {
    MatchConcat(b, c, e, m, es, ms);
  }

  lemma {:induction false} ConsAll(ts: seq<Ty>, v: Val, vs: seq<Val>)
    requires ts != [] && WellTyped(ts[0], v) && WellTypedAll(ts[1..], vs)
    ensures WellTypedAll(ts, [v] + vs)
    ensures EncodeAll(ts, [v] + vs) == Encode(ts[0], v) + EncodeAll(ts[1..], vs)
    ensures MaskAll(ts, [v] + vs) == Mask(ts[0], v) + MaskAll(ts[1..], vs)
  {
    assert ([v] + vs)[1..] == vs;
  }

  /** A reader accepts every encoding wherever it stands, with either tag on each blob. */
  lemma {:induction false} Complete(b: Image, c: nat, t: Ty, v: Val)
    requires WellTyped(t, v) && MatchAt(b, c, Encode(t, v), Mask(t, v))
    ensures Decode(b, c, t) == Success((v, c + |Encode(t, v)|))
    decreases t, 1
  {
    match t
    case Alias(u) => Complete(b, c, u, v);
    case Borrow(u) => Complete(b, c, u, v);
    case Text | Boolean | Scalar(_) => CompleteLeaf(b, c, t, v);
    case List(e) => CompleteList(b, c, e, v);
    case Opt(_) | Res(_, _) => CompleteSelfTagged(b, c, t, v);
    case Tuple(ts) => CompleteGroup(b, c, t, TAG_TUPLE, ts, v);
    case Record(_, ts) => CompleteGroup(b, c, t, TAG_RECORD, ts, v);
    case Variant(_, _) => CompleteVariant(b, c, t, v);
  }

  lemma CompleteLeaf(b: Image, c: nat, t: Ty, v: Val)
    requires t.Text? || t.Boolean? || t.Scalar?
    requires WellTyped(t, v) && MatchAt(b, c, Encode(t, v), Mask(t, v))
    ensures Decode(b, c, t) == Success((v, c + |Encode(t, v)|))
  {
    match t
    case Text => BlobAt(b, c, TAG_STRING, v.data);
    case Boolean => MatchOne(b, c, if v.b then TAG_BOOL_TRUE else TAG_BOOL_FALSE, false);
    case Scalar(p) => ScalarAt(b, c, p, v.bytes);
  }

  lemma CompleteList(b: Image, c: nat, e: Ty, v: Val)
    requires WellTyped(List(e), v) && MatchAt(b, c, Encode(List(e), v), Mask(List(e), v))
    ensures Decode(b, c, List(e)) == Success((v, c + |Encode(List(e), v)|))
  {
    if IsListOfU8(e) {
      BlobAt(b, c, TAG_BYTES, v.data);
    } else {
      ListAt(b, c, v.count, v.encoded);
    }
  }

  lemma {:induction false} CompleteSelfTagged(b: Image, c: nat, t: Ty, v: Val)
    requires t.Opt? || t.Res?
    requires WellTyped(t, v) && MatchAt(b, c, Encode(t, v), Mask(t, v))
    ensures Decode(b, c, t) == Success((v, c + |Encode(t, v)|))
    decreases t, 0
  {
    match v
    case Absent => MatchOne(b, c, TAG_OPTION_NONE, false);
    case Present(w) =>
      PrefixedAt(b, c, TAG_OPTION_SOME, Encode(t.inner, w), Mask(t.inner, w));
      Complete(b, c + 1, t.inner, w);
    case Good(w) =>
      PrefixedAt(b, c, TAG_RESULT_OK, EncodeOpt(t.ok, w), MaskOpt(t.ok, w));
      CompleteOpt(b, c + 1, t.ok, w);
    case Bad(w) =>
      PrefixedAt(b, c, TAG_RESULT_ERR, EncodeOpt(t.err, w), MaskOpt(t.err, w));
      CompleteOpt(b, c + 1, t.err, w);
  }

  lemma {:induction false} CompleteGroup(b: Image, c: nat, t: Ty, tag: Byte, ts: seq<Ty>, v: Val)
    requires (t.Tuple? && tag == TAG_TUPLE && t.elems == ts) || (t.Record? && tag == TAG_RECORD && t.fields == ts)
    requires WellTyped(t, v) && MatchAt(b, c, Encode(t, v), Mask(t, v))
    ensures Decode(b, c, t) == Success((v, c + |Encode(t, v)|))
    decreases t, 0
  {
    SegmentAt(b, c, tag, EncodeAll(ts, v.parts), MaskAll(ts, v.parts));
    CompleteAll(b, c + 5, ts, v.parts);
  }

  lemma {:induction false} CompleteVariant(b: Image, c: nat, t: Ty, v: Val)
    requires t.Variant?
    requires WellTyped(t, v) && MatchAt(b, c, Encode(t, v), Mask(t, v))
    ensures Decode(b, c, t) == Success((v, c + |Encode(t, v)|))
    decreases t, 0
  {
    var p := t.payloads[v.tag];
    VariantAt(b, c, v.tag, EncodeOpt(p, v.payload), MaskOpt(p, v.payload));
    CompleteOpt(b, c + 6, p, v.payload);
  }

  lemma {:induction false} CompleteOpt(b: Image, c: nat, t: Option<Ty>, v: Option<Val>)
    requires WellTypedOpt(t, v) && MatchAt(b, c, EncodeOpt(t, v), MaskOpt(t, v))
    ensures DecodeOpt(b, c, t) == Success((v, c + |EncodeOpt(t, v)|))
    decreases t, 0
  {
    if t.Some? {
      Complete(b, c, t.value, v.value);
    }
  }

  lemma {:induction false} CompleteAll(b: Image, c: nat, ts: seq<Ty>, vs: seq<Val>)
    requires WellTypedAll(ts, vs) && MatchAt(b, c, EncodeAll(ts, vs), MaskAll(ts, vs))
    ensures DecodeAll(b, c, ts) == Success((vs, c + |EncodeAll(ts, vs)|))
    decreases ts, 0
  {
    if ts != [] {
      var e := Encode(ts[0], vs[0]);
      MatchConcat(b, c, e, Mask(ts[0], vs[0]), EncodeAll(ts[1..], vs[1..]), MaskAll(ts[1..], vs[1..]));
      Complete(b, c, ts[0], vs[0]);
      CompleteAll(b, c + |e|, ts[1..], vs[1..]);
      assert [vs[0]] + vs[1..] == vs;
    }
  }

  // ---- Consequences ----

  /** The reader is the exact inverse of the writer: it returns `v` and `next` precisely when
      `v` is representable and the bytes up to `next` are its encoding, up to blob tags. */
  lemma ReaderInvertsWriter(b: Image, c: nat, t: Ty, v: Val, next: nat)
    ensures Decode(b, c, t) == Success((v, next)) <==>
            && WellTyped(t, v) && next == c + |Encode(t, v)|
            && MatchAt(b, c, Encode(t, v), Mask(t, v))
  {
    Canonical(b, c, t);
    if WellTyped(t, v) && MatchAt(b, c, Encode(t, v), Mask(t, v)) {
      Complete(b, c, t, v);
    }
  }

  lemma MatchSelf(pre: seq<Byte>, e: seq<Byte>, post: seq<Byte>, m: seq<bool>)
    requires |e| == |m|
    ensures MatchAt(pre + e + post, |pre|, e, m)
  {
  }

  /** Round trip: whatever surrounds an encoding, reading it back returns the value and
      stops exactly at its end. */
  lemma RoundTrip(pre: seq<Byte>, t: Ty, v: Val, post: seq<Byte>)
    requires WellTyped(t, v) && |pre + Encode(t, v) + post| < U32_BOUND
    ensures Decode(pre + Encode(t, v) + post, |pre|, t) == Success((v, |pre| + |Encode(t, v)|))
  {
    MatchSelf(pre, Encode(t, v), post, Mask(t, v));
    Complete(pre + Encode(t, v) + post, |pre|, t, v);
  }

  lemma WholeRoundTrip(t: Ty, v: Val)
    requires WellTyped(t, v) && |Encode(t, v)| < U32_BOUND
    ensures Decode(Encode(t, v), 0, t) == Success((v, |Encode(t, v)|))
    ensures MatchAt(Encode(t, v), 0, Encode(t, v), Mask(t, v))
  {
    Complete(Encode(t, v), 0, t, v);
  }

  /** Encodings are prefix-free, and so injective. */
  lemma PrefixFree(t: Ty, v: Val, w: Val, post: seq<Byte>)
    requires WellTyped(t, v) && WellTyped(t, w) && |Encode(t, v) + post| < U32_BOUND
    requires Encode(t, w) <= Encode(t, v) + post
    ensures v == w
  {
    var whole := Encode(t, v) + post;
    ReadsFront(t, v, whole);
    ReadsFront(t, w, whole);
  }

  lemma ReadsFront(t: Ty, v: Val, whole: Image)
    requires WellTyped(t, v) && StartsWith(whole, Encode(t, v))
    ensures Decode(whole, 0, t) == Success((v, |Encode(t, v)|))
  {
    MatchFront(whole, Encode(t, v), Mask(t, v));
    Complete(whole, 0, t, v);
  }

  predicate StartsWith(b: seq<Byte>, e: seq<Byte>) {
    |e| <= |b| && b[..|e|] == e
  }

  lemma MatchFront(b: seq<Byte>, e: seq<Byte>, m: seq<bool>)
    requires |e| == |m| && StartsWith(b, e)
    ensures MatchAt(b, 0, e, m)
  {
    assert forall i :: 0 <= i < |e| ==> b[i] == b[..|e|][i];
  }

  /** Types that hold no string and no byte list. */
  predicate BlobFree(t: Ty)
    decreases t, 1
  {
    match t
    case Alias(u) => BlobFree(u)
    case Borrow(u) => BlobFree(u)
    case Text => false
    case List(e) => !IsListOfU8(e)
    case Opt(u) => BlobFree(u)
    case Res(ok, err) => BlobFreeOpt(ok) && BlobFreeOpt(err)
    case Tuple(ts) => forall u | u in ts :: BlobFree(u)
    case Record(_, ts) => forall u | u in ts :: BlobFree(u)
    case Variant(_, ps) => forall p | p in ps :: BlobFreeOpt(p)
    case _ => true
  }

  predicate BlobFreeOpt(t: Option<Ty>)
    decreases t, 0
  {
    t.Some? ==> BlobFree(t.value)
  }

  lemma {:induction false} BlobFreeMask(t: Ty, v: Val)
    requires BlobFree(t) && WellTyped(t, v)
    ensures Mask(t, v) == Quiet(|Encode(t, v)|)
    decreases t, 1
  {
    match t
    case Alias(u) => BlobFreeMask(u, v);
    case Borrow(u) => BlobFreeMask(u, v);
    case Opt(u) => if v.Present? { BlobFreeMask(u, v.value); }
    case Res(ok, err) =>
      if v.Good? { BlobFreeMaskOpt(ok, v.okValue); } else { BlobFreeMaskOpt(err, v.errValue); }
    case Tuple(ts) => BlobFreeMaskAll(ts, v.parts);
    case Record(_, ts) => BlobFreeMaskAll(ts, v.parts);
    case Variant(_, ps) => BlobFreeMaskOpt(ps[v.tag], v.payload);
    case _ =>
  }

  lemma {:induction false} BlobFreeMaskOpt(t: Option<Ty>, v: Option<Val>)
    requires BlobFreeOpt(t) && WellTypedOpt(t, v)
    ensures MaskOpt(t, v) == Quiet(|EncodeOpt(t, v)|)
    decreases t, 0
  {
    if t.Some? { BlobFreeMask(t.value, v.value); }
  }

  lemma {:induction false} BlobFreeMaskAll(ts: seq<Ty>, vs: seq<Val>)
    requires (forall u | u in ts :: BlobFree(u)) && WellTypedAll(ts, vs)
    ensures MaskAll(ts, vs) == Quiet(|EncodeAll(ts, vs)|)
    decreases ts, 0
  {
    if ts != [] {
      BlobFreeMask(ts[0], vs[0]);
      BlobFreeMaskAll(ts[1..], vs[1..]);
    }
  }

  /** Canonical form: without blobs, re-writing what was read gives back the bytes read. */
  lemma RewriteReproduces(b: Image, c: nat, t: Ty)
    requires BlobFree(t) && Decode(b, c, t).Success?
    ensures var (v, next) := Decode(b, c, t).value;
            WellTyped(t, v) && c <= next <= |b| && Encode(t, v) == b[c..next]
  {
    Canonical(b, c, t);
    var (v, next) := Decode(b, c, t).value;
    BlobFreeMask(t, v);
    MatchQuiet(b, c, Encode(t, v));
  }

  /** The generated blob validator: an absent blob passes, an empty one does not. */
  function ValidateBlob(data: Option<seq<Byte>>, len: U32, t: Ty): bool
    requires data.Some? ==> |data.value| == len
  {
    if data.None? && len == 0 then true
    else if data.None? || len == 0 then false
    else
      var r := Decode(data.value, 0, t);
      r.Success? && r.value.1 == len
  }

  ghost predicate IsWholeEncoding(d: Image, t: Ty) {
    exists v :: WellTyped(t, v) && |Encode(t, v)| == |d| && MatchAt(d, 0, Encode(t, v), Mask(t, v))
  }

  /** A present blob passes validation exactly when it is one whole encoding, up to blob tags. */
  lemma ValidatorAcceptsWholeEncodings(d: Image, t: Ty)
    requires d != []
    ensures ValidateBlob(Some(d), |d|, t) <==> IsWholeEncoding(d, t)
  {
    Canonical(d, 0, t);
    if IsWholeEncoding(d, t) {
      var v :| WellTyped(t, v) && |Encode(t, v)| == |d| && MatchAt(d, 0, Encode(t, v), Mask(t, v));
      Complete(d, 0, t, v);
    }
  }
}
