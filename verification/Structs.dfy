/** Generated C structs as member stores, and the schema values they hold. */
module Structs {
  import opened Wrappers
  import opened Bytes
  import opened Schema
  import opened Wire
  import opened Layout

  /** A leaf member: a 1- or 4-byte flag or length, a scalar in memory order, or a data
      pointer with the bytes readable behind it. Members of a union count as separate
      cells; generated code only touches the one its discriminator selects. */
  datatype Cell = Word(n: U32) | Octets(bytes: seq<Byte>) | Pointer(target: Option<Image>)

  type Cells = map<string, Cell>

  // Members never written hold zero, as after memset.

  function WordAt(s: Cells, k: string): U32 {
    if k in s && s[k].Word? then s[k].n else 0
  }

  function OctetsAt(s: Cells, k: string, size: nat): (d: seq<Byte>)
    ensures |d| == size
  {
    if k in s && s[k].Octets? && |s[k].bytes| == size then s[k].bytes else seq(size, _ => 0)
  }

  function PointerAt(s: Cells, k: string): Option<Image> {
    if k in s && s[k].Pointer? then s[k].target else None
  }

  /** The `len` bytes behind a data pointer. A null pointer is refused unless `len` is 0;
      a pointer with fewer readable bytes, undefined in C, is refused likewise. */
  function Deref(p: Option<Image>, len: U32): Result<Image> {
    if len == 0 then Success([])
    else if p.None? || |p.value| < len then Failure(ErrInvalid)
    else Success(p.value[..len])
  }

  function LoadBlob(s: Cells, base: string): Result<Val> {
    var d :- Deref(PointerAt(s, base + "data"), WordAt(s, base + "len"));
    Success(Blob(d))
  }

  function LoadItems(s: Cells, base: string): Result<Val> {
    var d :- Deref(PointerAt(s, base + "data"), WordAt(s, base + "byte_len"));
    var count := WordAt(s, base + "len");
    var stop :- SkipMany(d, 0, count);
    if stop != |d| then Failure(ErrType) else Success(Items(count, d))
  }

  /** The value the members at `access` hold, or the error their writer returns. */
  function Load(s: Cells, t: Ty, access: string, sep: string): (r: Result<Val>)
    ensures r.Success? ==> WellTyped(t, r.value)
    ensures r.Failure? ==> r.error != ErrOom
    decreases t, 1
  {
    match t
    case Alias(u) => Load(s, u, access, sep)
    case Borrow(u) => Load(s, u, access, sep)
    case Text => LoadBlob(s, access + sep)
    case Boolean => Success(Bool(WordAt(s, access) != 0))
    case Scalar(p) => Success(Raw(OctetsAt(s, access, p.Size())))
    case List(e) =>
      if IsListOfU8(e) then LoadBlob(s, access + sep)
      else SkipManyErrors(s, access + sep); LoadItems(s, access + sep)
    case Opt(u) =>
      var (has, value) := OptionPaths(access, sep);
      if WordAt(s, has) == 0 then Success(Absent)
      else
        var v :- Load(s, u, value, sep);
        Success(Present(v))
    case Res(ok, err) =>
      var (isOk, okPath, errPath) := ResultPaths(access, sep);
      if WordAt(s, isOk) != 0 then
        var v :- LoadOpt(s, ok, okPath, "_");
        Success(Good(v))
      else
        var v :- LoadOpt(s, err, errPath, "_");
        Success(Bad(v))
    case Tuple(ts) => LoadGroup(s, ts, ElementPaths(access, |ts|))
    case Record(names, ts) => LoadGroup(s, ts, MemberPaths(access + ".", names, |ts|))
    case Variant(names, ps) =>
      assert access + "." + "case_tag" == access + ".case_tag";
      LoadVariant(s, names, ps, access + ".")
  }

  function LoadGroup(s: Cells, ts: seq<Ty>, accesses: seq<string>): (r: Result<Val>)
    requires |ts| == |accesses|
    ensures r.Success? ==> r.value.Group? && WellTypedAll(ts, r.value.parts)
    ensures r.Failure? ==> r.error != ErrOom
    decreases ts, 1
  {
    var vs :- LoadAll(s, ts, accesses);
    Success(Group(vs))
  }

  /** `prefix` leads to the variant's own members. */
  function LoadVariant(s: Cells, names: seq<string>, ps: seq<Option<Ty>>, prefix: string): (r: Result<Val>)
    ensures r.Success? ==> r.value.Case? && r.value.tag < |ps| && r.value.tag < 0x100
                           && WellTypedOpt(ps[r.value.tag], r.value.payload)
    ensures r.Failure? ==> r.error != ErrOom
    decreases ps, 1
  {
    var tag := OctetsAt(s, prefix + "case_tag", 1)[0];
    if tag >= |ps| then Failure(ErrType)
    else
      var v :- LoadCase(s, ps[tag], NameAt(names, tag), prefix);
      Success(Case(tag, v))
  }

  lemma SkipErrors(b: Image, c: nat)
    ensures Skip(b, c).Failure? ==> Skip(b, c).error != ErrOom
    decreases |b| - c
  {
  }

  lemma SkipManyError(b: Image, c: nat, n: nat)
    ensures SkipMany(b, c, n).Failure? ==> SkipMany(b, c, n).error != ErrOom
    decreases n
  {
    SkipErrors(b, c);
  }

  lemma SkipManyErrors(s: Cells, base: string)
    ensures var r := LoadItems(s, base); r.Failure? ==> r.error != ErrOom
  {
    var d := Deref(PointerAt(s, base + "data"), WordAt(s, base + "byte_len"));
    if d.Success? {
      SkipManyError(d.value, 0, WordAt(s, base + "len"));
    }
  }

  function LoadOpt(s: Cells, t: Option<Ty>, access: string, sep: string): (r: Result<Option<Val>>)
    ensures r.Success? ==> WellTypedOpt(t, r.value)
    ensures r.Failure? ==> r.error != ErrOom
    decreases t, 0
  {
    match t
    case None => Success(None)
    case Some(u) =>
      var v :- Load(s, u, access, sep);
      Success(Some(v))
  }

  function LoadAll(s: Cells, ts: seq<Ty>, accesses: seq<string>): (r: Result<seq<Val>>)
    requires |ts| == |accesses|
    ensures r.Success? ==> WellTypedAll(ts, r.value)
    ensures r.Failure? ==> r.error != ErrOom
    decreases ts, 0
  {
    if ts == [] then Success([])
    else
      var v :- Load(s, ts[0], accesses[0], "_");
      var vs :- LoadAll(s, ts[1..], accesses[1..]);
      assert ([v] + vs)[1..] == vs;
      Success([v] + vs)
  }

  function LoadCase(s: Cells, p: Option<Ty>, name: string, prefix: string): (r: Result<Option<Val>>)
    ensures r.Success? ==> WellTypedOpt(p, r.value)
    ensures r.Failure? ==> r.error != ErrOom
    decreases p, 0
  {
    match p
    case None => Success(None)
    case Some(t) =>
      var (access, sep) := PayloadAccess(prefix, name, t);
      var v :- Load(s, t, access, sep);
      Success(Some(v))
  }

  // ---- Frames ----

  predicate SameAt(s1: Cells, s2: Cells, k: string) {
    (k in s1 <==> k in s2) && (k in s1 ==> s1[k] == s2[k])
  }

  predicate SameOn(s1: Cells, s2: Cells, ks: seq<string>) {
    forall k | k in ks :: SameAt(s1, s2, k)
  }

  ghost predicate SameOutside(s1: Cells, s2: Cells, ks: seq<string>) {
    forall k :: k !in ks ==> SameAt(s1, s2, k)
  }

  /** What a struct holds at `access` depends only on the paths its type touches. */
  lemma {:induction false} LoadFrame(s1: Cells, s2: Cells, t: Ty, access: string, sep: string)
    requires SameOn(s1, s2, Paths(t, access, sep))
    ensures Load(s1, t, access, sep) == Load(s2, t, access, sep)
    decreases t, 1
  {
    match t
    case Alias(u) => LoadFrame(s1, s2, u, access, sep);
    case Borrow(u) => LoadFrame(s1, s2, u, access, sep);
    case Boolean | Scalar(_) => assert access in Paths(t, access, sep);
    case Text => BlobFrame(s1, s2, access + sep);
    case List(e) =>
      BlobFrame(s1, s2, access + sep);
      if !IsListOfU8(e) {
        assert access + sep + "byte_len" in Paths(t, access, sep);
      }
    case Opt(u) =>
      var (has, value) := OptionPaths(access, sep);
      assert has in Paths(t, access, sep);
      LoadFrame(s1, s2, u, value, sep);
    case Res(ok, err) =>
      var (isOk, okPath, errPath) := ResultPaths(access, sep);
      assert isOk in Paths(t, access, sep);
      LoadFrameOpt(s1, s2, ok, okPath, "_");
      LoadFrameOpt(s1, s2, err, errPath, "_");
    case Tuple(ts) => LoadFrameAll(s1, s2, ts, ElementPaths(access, |ts|));
    case Record(names, ts) => LoadFrameAll(s1, s2, ts, MemberPaths(access + ".", names, |ts|));
    case Variant(names, ps) =>
      assert access + ".case_tag" in Paths(t, access, sep);
      assert access + "." + "case_tag" == access + ".case_tag";
      LoadFrameCases(s1, s2, ps, names, access + ".");
  }

  lemma BlobFrame(s1: Cells, s2: Cells, base: string)
    requires SameOn(s1, s2, BlobPaths(base))
    ensures LoadBlob(s1, base) == LoadBlob(s2, base)
    ensures PointerAt(s1, base + "data") == PointerAt(s2, base + "data")
    ensures WordAt(s1, base + "len") == WordAt(s2, base + "len")
  {
    assert base + "data" in BlobPaths(base) && base + "len" in BlobPaths(base);
  }

  lemma {:induction false} LoadFrameOpt(s1: Cells, s2: Cells, t: Option<Ty>, access: string, sep: string)
    requires SameOn(s1, s2, PathsOpt(t, access, sep))
    ensures LoadOpt(s1, t, access, sep) == LoadOpt(s2, t, access, sep)
    decreases t, 0
  {
    if t.Some? {
      LoadFrame(s1, s2, t.value, access, sep);
    }
  }

  lemma {:induction false} LoadFrameAll(s1: Cells, s2: Cells, ts: seq<Ty>, accesses: seq<string>)
    requires |ts| == |accesses| && SameOn(s1, s2, PathsAll(ts, accesses))
    ensures LoadAll(s1, ts, accesses) == LoadAll(s2, ts, accesses)
    decreases ts, 0
  {
    if ts != [] {
      LoadFrame(s1, s2, ts[0], accesses[0], "_");
      LoadFrameAll(s1, s2, ts[1..], accesses[1..]);
    }
  }

  lemma {:induction false} LoadFrameCase(s1: Cells, s2: Cells, p: Option<Ty>, name: string, prefix: string)
    requires SameOn(s1, s2, CasePaths(p, name, prefix))
    ensures LoadCase(s1, p, name, prefix) == LoadCase(s2, p, name, prefix)
    decreases p, 0
  {
    if p.Some? {
      var (access, sep) := PayloadAccess(prefix, name, p.value);
      LoadFrame(s1, s2, p.value, access, sep);
    }
  }

  lemma {:induction false} LoadFrameCases(s1: Cells, s2: Cells, ps: seq<Option<Ty>>, names: seq<string>, prefix: string)
    requires SameOn(s1, s2, PathsCases(ps, names, prefix))
    ensures forall i :: 0 <= i < |ps| ==>
              LoadCase(s1, ps[i], NameAt(names, i), prefix) == LoadCase(s2, ps[i], NameAt(names, i), prefix)
    decreases ps, 0
  {
    if ps != [] {
      var rest := if names == [] then [] else names[1..];
      LoadFrameCase(s1, s2, ps[0], NameAt(names, 0), prefix);
      LoadFrameCases(s1, s2, ps[1..], rest, prefix);
      forall i | 0 < i < |ps|
        ensures LoadCase(s1, ps[i], NameAt(names, i), prefix) == LoadCase(s2, ps[i], NameAt(names, i), prefix)
      {
        assert ps[i] == ps[1..][i - 1] && NameAt(names, i) == NameAt(rest, i - 1);
      }
    }
  }

  // ---- What a struct cannot hold ----

  /** With one presence flag for two levels, no struct holds a present-but-empty option. */
  lemma NoStructHoldsPresentAbsent(s: Cells, u: Ty, access: string, sep: string)
    requires Unwrap(u).Opt? && sep != "."
    ensures Load(s, Opt(u), access, sep) != Success(Present(Absent))
  {
    SharedFlag(s, u, access, sep);
  }

  lemma {:induction false} SharedFlag(s: Cells, u: Ty, access: string, sep: string)
    requires Unwrap(u).Opt? && sep != "."
    ensures WordAt(s, OptionPaths(access, sep).0) != 0 ==> Load(s, u, access, sep) != Success(Absent)
  {
    match u
    case Alias(w) => SharedFlag(s, w, access, sep);
    case Borrow(w) => SharedFlag(s, w, access, sep);
    case Opt(_) =>
  }
}
