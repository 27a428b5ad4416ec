/** How the universal skip relates to the typed readers and writers. */
module SkipTheorems {
  import opened Wrappers
  import opened Bytes
  import opened Schema
  import opened Wire
  import opened WireTheorems

  // ---- Locality ----

  lemma SliceOfSlice<T>(s: seq<T>, i: nat, j: nat, k: nat, l: nat)
    requires i <= j <= |s| && k <= l <= j - i
    ensures s[i..j][k..l] == s[i + k..i + l]
  {
    forall x | 0 <= x < l - k ensures s[i..j][k..l][x] == s[i + k..i + l][x] {
      assert s[i..j][k + x] == s[i + k + x];
    }
  }

  /** A successful skip looks only at the bytes it skips. */
  lemma {:induction false} SkipBounds(b: Image, c: nat)
    requires Skip(b, c).Success?
    ensures c < Skip(b, c).value <= |b|
    decreases |b| - c
  {
    if b[c] in {TAG_OPTION_SOME, TAG_RESULT_OK, TAG_RESULT_ERR} {
      SkipBounds(b, c + 1);
    }
  }

  lemma {:induction false} SkipLocal(b: Image, c: nat, b2: Image, c2: nat, next: nat)
    requires Skip(b, c) == Success(next)
    requires c <= next <= |b| && c2 + (next - c) <= |b2| && b[c..next] == b2[c2..c2 + (next - c)]
    ensures Skip(b2, c2) == Success(c2 + (next - c))
    decreases |b| - c
  {
    SkipBounds(b, c);
    assert b[c..next][0] == b[c] && b2[c2..c2 + (next - c)][0] == b2[c2];
    if b[c] in {TAG_OPTION_SOME, TAG_RESULT_OK, TAG_RESULT_ERR} {
      assert b[c + 1..next] == b[c..next][1..] == b2[c2 + 1..c2 + (next - c)];
      SkipLocal(b, c + 1, b2, c2 + 1, next);
    } else if IsLengthPrefixed(b[c]) {
      assert next >= c + 5;
      SliceOfSlice(b, c, next, 1, 5);
      SliceOfSlice(b2, c2, c2 + (next - c), 1, 5);
    }
  }

  // ---- Skip against the typed codec ----

  /** `v` runs along its options and results into an omitted result arm, so that its
      encoding is a chain of tags with nothing behind. */
  predicate Bare(t: Ty, v: Val)
    requires WellTyped(t, v)
    decreases t, 1
  {
    match t
    case Alias(u) => Bare(u, v)
    case Borrow(u) => Bare(u, v)
    case Opt(u) => v.Present? && Bare(u, v.value)
    case Res(ok, err) => if v.Good? then BareOpt(ok, v.okValue) else BareOpt(err, v.errValue)
    case _ => false
  }

  predicate BareOpt(t: Option<Ty>, v: Option<Val>)
    requires WellTypedOpt(t, v)
    decreases t, 0
  {
    t.None? || Bare(t.value, v.value)
  }

  lemma SkipSegment(b: Image, c: nat, tag: Byte, end: nat)
    requires IsLengthPrefixed(tag) && OpenSegment(b, c, tag) == Success((c + 5, end))
    ensures Skip(b, c) == Success(end)
  {
  }

  lemma SkipMatchedSegment(b: Image, c: nat, tag: Byte, body: seq<Byte>, m: seq<bool>)
    requires IsLengthPrefixed(tag) && |body| == |m|
    requires MatchAt(b, c, Segment(tag, body), SegmentMask(m))
    ensures Skip(b, c) == Success(c + |Segment(tag, body)|)
  {
    SegmentAt(b, c, tag, body, m);
    SkipSegment(b, c, tag, c + 5 + |body|);
  }

  /** Skip over an encoding stops at its end, except that over a bare value it goes on to
      swallow whatever comes next. */
  lemma {:induction false} SkipOverEncoding(b: Image, c: nat, t: Ty, v: Val)
    requires WellTyped(t, v) && MatchAt(b, c, Encode(t, v), Mask(t, v))
    ensures var next := c + |Encode(t, v)|;
            Skip(b, c) == if Bare(t, v) then Skip(b, next) else Success(next)
    decreases t, 1
  {
    match t
    case Alias(u) => SkipOverEncoding(b, c, u, v);
    case Borrow(u) => SkipOverEncoding(b, c, u, v);
    case Text | Boolean | Scalar(_) | List(_) => SkipOverLeaf(b, c, t, v);
    case Tuple(_) | Record(_, _) | Variant(_, _) => SkipOverSegment(b, c, t, v);
    case Opt(u) => SkipOverOption(b, c, u, v);
    case Res(ok, err) => SkipOverResult(b, c, ok, err, v);
  }

  lemma SkipOverSegment(b: Image, c: nat, t: Ty, v: Val)
    requires t.Tuple? || t.Record? || t.Variant?
    requires WellTyped(t, v) && MatchAt(b, c, Encode(t, v), Mask(t, v))
    ensures Skip(b, c) == Success(c + |Encode(t, v)|)
  {
    match t
    case Tuple(ts) => SkipMatchedSegment(b, c, TAG_TUPLE, EncodeAll(ts, v.parts), MaskAll(ts, v.parts));
    case Record(_, ts) => SkipMatchedSegment(b, c, TAG_RECORD, EncodeAll(ts, v.parts), MaskAll(ts, v.parts));
    case Variant(_, ps) =>
      var p := ps[v.tag];
      SkipMatchedSegment(b, c, TAG_VARIANT, [v.tag] + EncodeOpt(p, v.payload), [false] + MaskOpt(p, v.payload));
  }

  lemma SkipOverLeaf(b: Image, c: nat, t: Ty, v: Val)
    requires t.Text? || t.Boolean? || t.Scalar? || t.List?
    requires WellTyped(t, v) && MatchAt(b, c, Encode(t, v), Mask(t, v))
    ensures Skip(b, c) == Success(c + |Encode(t, v)|)
  {
    match t
    case Text => SkipBlob(b, c, TAG_STRING, v.data);
    case Boolean => MatchOne(b, c, if v.b then TAG_BOOL_TRUE else TAG_BOOL_FALSE, false);
    case Scalar(p) =>
      ScalarAt(b, c, p, v.bytes);
      PrefixedAt(b, c, p.Tag(), v.bytes, Quiet(p.Size()));
    case List(e) =>
      if IsListOfU8(e) {
        SkipBlob(b, c, TAG_BYTES, v.data);
      } else {
        assert Quiet(9 + |v.encoded|) == SegmentMask(Quiet(4 + |v.encoded|));
        SkipMatchedSegment(b, c, TAG_LIST, LE32(v.count) + v.encoded, Quiet(4 + |v.encoded|));
      }
  }

  lemma SkipBlob(b: Image, c: nat, tag: Byte, d: seq<Byte>)
    requires IsBlobTag(tag) && |d| < U32_BOUND && MatchAt(b, c, Segment(tag, d), BlobMask(|d|))
    ensures Skip(b, c) == Success(c + 5 + |d|)
  {
    BlobAt(b, c, tag, d);
    assert b[c..][0] == b[c];
  }

  lemma {:induction false} SkipOverOption(b: Image, c: nat, u: Ty, v: Val)
    requires WellTyped(Opt(u), v) && MatchAt(b, c, Encode(Opt(u), v), Mask(Opt(u), v))
    ensures var next := c + |Encode(Opt(u), v)|;
            Skip(b, c) == if Bare(Opt(u), v) then Skip(b, next) else Success(next)
    decreases Opt(u), 0
  {
    if v.Absent? {
      MatchOne(b, c, TAG_OPTION_NONE, false);
    } else {
      PrefixedAt(b, c, TAG_OPTION_SOME, Encode(u, v.value), Mask(u, v.value));
      SkipOverEncoding(b, c + 1, u, v.value);
    }
  }

  lemma {:induction false} SkipOverResult(b: Image, c: nat, ok: Option<Ty>, err: Option<Ty>, v: Val)
    requires WellTyped(Res(ok, err), v) && MatchAt(b, c, Encode(Res(ok, err), v), Mask(Res(ok, err), v))
    ensures var next := c + |Encode(Res(ok, err), v)|;
            Skip(b, c) == if Bare(Res(ok, err), v) then Skip(b, next) else Success(next)
    decreases Res(ok, err), 0
  {
    if v.Good? {
      SkipOverArm(b, c, TAG_RESULT_OK, ok, v.okValue);
    } else {
      SkipOverArm(b, c, TAG_RESULT_ERR, err, v.errValue);
    }
  }

  lemma {:induction false} SkipOverArm(b: Image, c: nat, tag: Byte, t: Option<Ty>, v: Option<Val>)
    requires tag in {TAG_RESULT_OK, TAG_RESULT_ERR} && WellTypedOpt(t, v)
    requires MatchAt(b, c, [tag] + EncodeOpt(t, v), [false] + MaskOpt(t, v))
    ensures var next := c + 1 + |EncodeOpt(t, v)|;
            Skip(b, c) == if BareOpt(t, v) then Skip(b, next) else Success(next)
    decreases t, 2
  {
    PrefixedAt(b, c, tag, EncodeOpt(t, v), MaskOpt(t, v));
    SkipArmTag(b, c, tag);
    if t.Some? {
      SkipOverEncoding(b, c + 1, t.value, v.value);
    }
  }

  lemma SkipArmTag(b: Image, c: nat, tag: Byte)
    requires tag in {TAG_RESULT_OK, TAG_RESULT_ERR} && c < |b| && b[c] == tag
    ensures Skip(b, c) == Skip(b, c + 1)
  {
  }

  /** No result on the option/result spine of `t` omits an arm. */
  predicate SpineComplete(t: Ty) {
    match t
    case Alias(u) => SpineComplete(u)
    case Borrow(u) => SpineComplete(u)
    case Opt(u) => SpineComplete(u)
    case Res(ok, err) => ok.Some? && err.Some? && SpineComplete(ok.value) && SpineComplete(err.value)
    case _ => true
  }

  lemma {:induction false} CompleteSpineNeverBare(t: Ty, v: Val)
    requires SpineComplete(t) && WellTyped(t, v)
    ensures !Bare(t, v)
  {
    match t
    case Alias(u) => CompleteSpineNeverBare(u, v);
    case Borrow(u) => CompleteSpineNeverBare(u, v);
    case Opt(u) => if v.Present? { CompleteSpineNeverBare(u, v.value); }
    case Res(ok, err) =>
      if v.Good? {
        CompleteSpineNeverBare(ok.value, v.okValue.value);
      } else {
        CompleteSpineNeverBare(err.value, v.errValue.value);
      }
    case _ =>
  }

  /** A value of `t` that runs into one of its omitted arms. */
  function BareValue(t: Ty): (v: Val)
    requires !SpineComplete(t)
    ensures WellTyped(t, v) && Bare(t, v)
  {
    match t
    case Alias(u) => BareValue(u)
    case Borrow(u) => BareValue(u)
    case Opt(u) => Present(BareValue(u))
    case Res(ok, err) =>
      if ok.None? then Good(None)
      else if err.None? then Bad(None)
      else if !SpineComplete(ok.value) then Good(Some(BareValue(ok.value)))
      else Bad(Some(BareValue(err.value)))
  }

  ghost predicate SkipAgreesWithReader(t: Ty) {
    forall b: Image, c: nat ::
      Decode(b, c, t).Success? ==> Skip(b, c) == Success(Decode(b, c, t).value.1)
  }

  /** The encoding of a bare value is a chain of tags, so it is short. */
  lemma {:induction false} BareEncodingLength(t: Ty)
    requires !SpineComplete(t)
    ensures |Encode(t, BareValue(t))| <= Depth(t)
  {
    match t
    case Alias(u) => BareEncodingLength(u);
    case Borrow(u) => BareEncodingLength(u);
    case Opt(u) => BareEncodingLength(u);
    case Res(ok, err) =>
      if ok.None? || err.None? {
      } else if !SpineComplete(ok.value) {
        BareEncodingLength(ok.value);
      } else {
        BareEncodingLength(err.value);
      }
  }

  /** The nesting depth of a type's spine. */
  function Depth(t: Ty): nat {
    match t
    case Alias(u) => Depth(u)
    case Borrow(u) => Depth(u)
    case Opt(u) => 1 + Depth(u)
    case Res(ok, err) =>
      var d1 := if ok.Some? then Depth(ok.value) else 0;
      var d2 := if err.Some? then Depth(err.value) else 0;
      1 + if d1 > d2 then d1 else d2
    case _ => 0
  }

  lemma SkipAgreesAt(b: Image, c: nat, t: Ty)
    requires SpineComplete(t) && Decode(b, c, t).Success?
    ensures Skip(b, c) == Success(Decode(b, c, t).value.1)
  {
    Canonical(b, c, t);
    var v := Decode(b, c, t).value.0;
    CompleteSpineNeverBare(t, v);
    SkipOverEncoding(b, c, t, v);
  }

  lemma SkipFailsOnBare(t: Ty, v: Val)
    requires WellTyped(t, v) && Bare(t, v) && |Encode(t, v)| < U32_BOUND
    ensures Decode(Encode(t, v), 0, t).Success? && Skip(Encode(t, v), 0).Failure?
  {
    WholeRoundTrip(t, v);
    SkipOverEncoding(Encode(t, v), 0, t, v);
  }

  /** Skip stops where the reader stops on every input exactly for the types whose spine
      omits no result arm. */
  lemma SkipAgreesExactly(t: Ty)
    requires Depth(t) < U32_BOUND
    ensures SkipAgreesWithReader(t) <==> SpineComplete(t)
  {
    if SpineComplete(t) {
      forall b: Image, c: nat | Decode(b, c, t).Success? {
        SkipAgreesAt(b, c, t);
      }
    } else {
      BareEncodingLength(t);
      SkipFailsOnBare(t, BareValue(t));
    }
  }

  // ---- Lists of generated elements ----

  predicate AllTyped(t: Ty, vs: seq<Val>) {
    vs == [] || (WellTyped(t, vs[0]) && AllTyped(t, vs[1..]))
  }

  predicate NoneBare(t: Ty, vs: seq<Val>)
    requires AllTyped(t, vs)
  {
    vs == [] || (!Bare(t, vs[0]) && NoneBare(t, vs[1..]))
  }

  function EncodeEach(t: Ty, vs: seq<Val>): seq<Byte>
    requires AllTyped(t, vs)
  {
    if vs == [] then [] else Encode(t, vs[0]) + EncodeEach(t, vs[1..])
  }

  lemma SkipFirst(b: Image, c: nat, t: Ty, v: Val, rest: seq<Byte>)
    requires WellTyped(t, v) && c <= |b| && b[c..] == Encode(t, v) + rest
    ensures var next := c + |Encode(t, v)|;
            next <= |b| && b[next..] == rest
            && Skip(b, c) == if Bare(t, v) then Skip(b, next) else Success(next)
  {
    var e := Encode(t, v);
    assert b == b[..c] + e + rest;
    MatchSelf(b[..c], e, rest, Mask(t, v));
    SkipOverEncoding(b, c, t, v);
  }

  lemma SkipManyStep(b: Image, c: nat, next: nat, n: nat, bare: bool)
    requires Skip(b, c) == if bare then Skip(b, next) else Success(next)
    ensures n > 0 ==> SkipMany(b, c, n) == if bare then SkipMany(b, next, n) else SkipMany(b, next, n - 1)
  {
  }

  /** Skipping `n` times over fewer encodings runs off the end, and so it does over `n`
      encodings one of which is bare. */
  lemma {:induction false} SkipOverEach(b: Image, c: nat, t: Ty, vs: seq<Val>, n: nat)
    requires AllTyped(t, vs) && c <= |b| && b[c..] == EncodeEach(t, vs) && n >= |vs|
    ensures SkipMany(b, c, n) ==
            if n == |vs| && NoneBare(t, vs) then Success(|b|) else Failure(ErrRange)
    decreases |vs|
  {
    if vs != [] {
      var next := c + |Encode(t, vs[0])|;
      SkipFirst(b, c, t, vs[0], EncodeEach(t, vs[1..]));
      SkipManyStep(b, c, next, n, Bare(t, vs[0]));
      SkipOverEach(b, next, t, vs[1..], if Bare(t, vs[0]) then n else n - 1);
    }
  }

  /** A list built from the generated encodings of its elements passes the list writer's
      check exactly when no element is bare. */
  lemma ElementsAccepted(elem: Ty, vs: seq<Val>)
    requires AllTyped(elem, vs) && |vs| < U32_BOUND && |EncodeEach(elem, vs)| < U32_BOUND
    requires !IsListOfU8(elem)
    ensures WellTyped(List(elem), Items(|vs|, EncodeEach(elem, vs))) <==> NoneBare(elem, vs)
  {
    var b := EncodeEach(elem, vs);
    assert b[0..] == b;
    SkipOverEach(b, 0, elem, vs, |vs|);
  }

  /** In particular a list<result<_, E>> holding two ok values is refused. */
  lemma TwoBareOksRefused(err: Ty)
    ensures var t, ok := Res(None, Some(err)), [TAG_RESULT_OK];
            Encode(t, Good(None)) == ok && !WellTyped(List(t), Items(2, ok + ok))
  {
    var t, v := Res(None, Some(err)), Good(None);
    var vs := [v, v];
    assert vs[1..] == [v] && vs[1..][1..] == [];
    assert EncodeEach(t, vs[1..][1..]) == [];
    assert EncodeEach(t, vs[1..]) == Encode(t, v) == [TAG_RESULT_OK];
    assert EncodeEach(t, vs) == [TAG_RESULT_OK, TAG_RESULT_OK];
    ElementsAccepted(t, vs);
    assert Bare(t, vs[0]);
  }

  // ---- Generic lists are transparent ----

  function Concat(parts: seq<seq<Byte>>): seq<Byte> {
    if parts == [] then [] else parts[0] + Concat(parts[1..])
  }

  predicate Skippable(p: seq<Byte>) {
    |p| < U32_BOUND && Skip(p, 0) == Success(|p|)
  }

  ghost predicate IsSkippableConcat(d: seq<Byte>, n: nat) {
    exists parts: seq<seq<Byte>> :: |parts| == n && Concat(parts) == d && forall p | p in parts :: Skippable(p)
  }

  lemma {:induction false} SkipManySplits(b: Image, c: nat, n: nat) returns (parts: seq<seq<Byte>>)
    requires c <= |b| && SkipMany(b, c, n) == Success(|b|)
    ensures |parts| == n && Concat(parts) == b[c..] && forall p | p in parts :: Skippable(p)
    decreases n
  {
    if n == 0 {
      parts := [];
    } else {
      SkipBounds(b, c);
      var c1 := Skip(b, c).value;
      var p := b[c..c1];
      SkipLocal(b, c, p, 0, c1);
      var rest := SkipManySplits(b, c1, n - 1);
      parts := [p] + rest;
      assert b[c..] == p + b[c1..];
    }
  }

  lemma {:induction false} SkipManyJoins(b: Image, c: nat, parts: seq<seq<Byte>>)
    requires c <= |b| && Concat(parts) == b[c..] && forall p | p in parts :: Skippable(p)
    ensures SkipMany(b, c, |parts|) == Success(|b|)
    decreases |parts|
  {
    if parts != [] {
      var p := parts[0];
      assert Skippable(p);
      assert b[c..] == p + Concat(parts[1..]);
      assert b[c..c + |p|] == b[c..][..|p|] == p == p[0..|p|];
      SkipLocal(p, 0, b, c, |p|);
      assert b[c + |p|..] == b[c..][|p|..];
      SkipManyJoins(b, c + |p|, parts[1..]);
    }
  }

  /** The list writer takes a count and bytes exactly when the bytes are that many skippable
      values laid end to end. */
  lemma ListTransparent(elem: Ty, n: U32, d: seq<Byte>)
    requires !IsListOfU8(elem) && |d| < U32_BOUND
    ensures WellTyped(List(elem), Items(n, d)) <==> IsSkippableConcat(d, n)
  {
    assert d[0..] == d;
    if WellTyped(List(elem), Items(n, d)) {
      var parts := SkipManySplits(d, 0, n);
    }
    if IsSkippableConcat(d, n) {
      var parts: seq<seq<Byte>> :| |parts| == n && Concat(parts) == d && forall p | p in parts :: Skippable(p);
      SkipManyJoins(d, 0, parts);
    }
  }
}
