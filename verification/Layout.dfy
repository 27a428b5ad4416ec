/** The C struct members a schema type declares, and the member paths generated code touches. */
module Layout {
  import opened Wrappers
  import opened Schema

  // ---- Access paths, as the generator builds them ----

  /** The last position of `ch`, or -1. */
  function LastIndexOf(s: string, ch: char): (i: int)
    ensures -1 <= i < |s|
    ensures i >= 0 ==> s[i] == ch
    ensures forall j :: i < j < |s| ==> s[j] != ch
  {
    if s == [] then -1
    else if s[|s| - 1] == ch then |s| - 1
    else LastIndexOf(s[..|s| - 1], ch)
  }

  /** Where the last component of an access path begins. */
  function FieldStart(access: string): (i: nat)
    ensures i <= |access|
  {
    var arrow, dot := LastIndexOf(access, '>'), LastIndexOf(access, '.');
    if arrow >= 0 && (dot < 0 || arrow > dot) then arrow + 1
    else if dot >= 0 then dot + 1
    else 0
  }

  function AccessPrefix(access: string): string {
    access[..FieldStart(access)]
  }

  function AccessField(access: string): string {
    access[FieldStart(access)..]
  }

  /** The presence flag and the value of an option. */
  function OptionPaths(access: string, sep: string): (string, string) {
    if sep == "." then (access + ".has_v", access + ".v")
    else (AccessPrefix(access) + "has_" + AccessField(access), access)
  }

  /** The discriminator, ok value and error value of a result. */
  function ResultPaths(access: string, sep: string): (string, string, string) {
    if sep == "." then (access + ".is_v_ok", access + ".v_val.ok.v", access + ".v_val.err.v")
    else
      var p, f := AccessPrefix(access), AccessField(access);
      (p + "is_" + f + "_ok", p + f + "_val.ok.v", p + f + "_val.err.v")
  }

  function Decimal(n: nat): string {
    if n < 10 then [DIGITS[n]] else Decimal(n / 10) + [DIGITS[n % 10]]
  }

  const DIGITS := "0123456789"

  /** The access paths of `n` tuple elements. */
  function ElementPaths(access: string, n: nat): (ps: seq<string>)
    ensures |ps| == n
  {
    seq(n, i requires 0 <= i < n => access + "_" + Decimal(i))
  }

  /** A declaration names each of its members; a missing name would read as empty. */
  function NameAt(names: seq<string>, i: nat): string {
    if i < |names| then names[i] else ""
  }

  function MemberPaths(prefix: string, names: seq<string>, n: nat): (ps: seq<string>)
    ensures |ps| == n
  {
    seq(n, i requires 0 <= i < n => prefix + NameAt(names, i))
  }

  /** Variant payloads of these kinds sit in a struct of their own, as its member `v`. */
  predicate IsWrappedPayload(t: Ty) {
    Unwrap(t).Opt? || Unwrap(t).Tuple? || Unwrap(t).Res?
  }

  function PayloadAccess(prefix: string, name: string, t: Ty): (string, string) {
    if IsWrappedPayload(t) then (prefix + "val." + name + ".v", "_")
    else (prefix + "val." + name, ".")
  }

  /** Every member path that writing or reading a value of type `t` at `access` may touch. */
  function Paths(t: Ty, access: string, sep: string): seq<string>
    decreases t, 1
  {
    match t
    case Alias(u) => Paths(u, access, sep)
    case Borrow(u) => Paths(u, access, sep)
    case Text => BlobPaths(access + sep)
    case Boolean => [access]
    case Scalar(_) => [access]
    case List(e) =>
      if IsListOfU8(e) then BlobPaths(access + sep)
      else BlobPaths(access + sep) + [access + sep + "byte_len"]
    case Opt(u) =>
      var (has, value) := OptionPaths(access, sep);
      [has] + Paths(u, value, sep)
    case Res(ok, err) =>
      var (isOk, okPath, errPath) := ResultPaths(access, sep);
      [isOk] + PathsOpt(ok, okPath, "_") + PathsOpt(err, errPath, "_")
    case Tuple(ts) => PathsAll(ts, ElementPaths(access, |ts|))
    case Record(names, ts) => PathsAll(ts, MemberPaths(access + ".", names, |ts|))
    case Variant(names, ps) => [access + ".case_tag"] + PathsCases(ps, names, access + ".")
  }

  function BlobPaths(base: string): seq<string> {
    [base + "data", base + "len"]
  }

  function PathsOpt(t: Option<Ty>, access: string, sep: string): seq<string>
    decreases t, 0
  {
    if t.None? then [] else Paths(t.value, access, sep)
  }

  function PathsAll(ts: seq<Ty>, accesses: seq<string>): seq<string>
    requires |ts| == |accesses|
    decreases ts, 0
  {
    if ts == [] then [] else Paths(ts[0], accesses[0], "_") + PathsAll(ts[1..], accesses[1..])
  }

  /** `prefix` leads to the variant's own members. */
  function PathsCases(ps: seq<Option<Ty>>, names: seq<string>, prefix: string): seq<string>
    decreases ps, 0
  {
    if ps == [] then []
    else
      CasePaths(ps[0], NameAt(names, 0), prefix)
      + PathsCases(ps[1..], if names == [] then [] else names[1..], prefix)
  }

  function CasePaths(p: Option<Ty>, name: string, prefix: string): seq<string>
    decreases p, 0
  {
    if p.None? then []
    else
      var (access, sep) := PayloadAccess(prefix, name, p.value);
      Paths(p.value, access, sep)
  }

  // ---- Declared members ----

  function Prefixed(prefix: string, names: seq<string>): (ps: seq<string>)
    ensures |ps| == |names|
    ensures forall i :: 0 <= i < |names| ==> ps[i] == prefix + names[i]
  {
    if names == [] then [] else [prefix + names[0]] + Prefixed(prefix, names[1..])
  }

  /** The leaf members the struct field emitter declares for a field `name` of type `t`. */
  function Declared(t: Ty, name: string): seq<string>
    decreases t, 1
  {
    match t
    case Alias(u) => Declared(u, name)
    case Borrow(u) => Declared(u, name)
    case Text => [name + "_data", name + "_len"]
    case Boolean => [name]
    case Scalar(_) => [name]
    case List(e) =>
      if IsListOfU8(e) then [name + "_data", name + "_len"]
      else [name + "_data", name + "_len", name + "_byte_len"]
    case Opt(u) => ["has_" + name] + Declared(u, name)
    case Res(ok, err) =>
      ["is_" + name + "_ok"]
      + Prefixed(name + "_val.ok.", DeclaredOpt(ok, "v"))
      + Prefixed(name + "_val.err.", DeclaredOpt(err, "v"))
    case Tuple(ts) => DeclaredAll(ts, ElementPaths(name, |ts|))
    case Record(names, ts) => Prefixed(name + ".", DeclaredAll(ts, MemberPaths("", names, |ts|)))
    case Variant(names, ps) => Prefixed(name + ".", ["case_tag"] + DeclaredCases(ps, names))
  }

  function DeclaredOpt(t: Option<Ty>, name: string): seq<string>
    decreases t, 0
  {
    if t.None? then [] else Declared(t.value, name)
  }

  function DeclaredAll(ts: seq<Ty>, names: seq<string>): seq<string>
    requires |ts| == |names|
    decreases ts, 0
  {
    if ts == [] then [] else Declared(ts[0], names[0]) + DeclaredAll(ts[1..], names[1..])
  }

  function DeclaredCases(ps: seq<Option<Ty>>, names: seq<string>): seq<string>
    decreases ps, 0
  {
    if ps == [] then []
    else
      Prefixed("val.", DeclaredPayload(ps[0], NameAt(names, 0)))
      + DeclaredCases(ps[1..], if names == [] then [] else names[1..])
  }

  /** A member of a variant's payload union. */
  function DeclaredPayload(p: Option<Ty>, name: string): seq<string>
    decreases p, 0
  {
    match p
    case None => []
    case Some(t) =>
      if IsWrappedPayload(t) then Prefixed(name + ".", Declared(t, "v"))
      else DeclaredBare(t, name)
  }

  function DeclaredBare(t: Ty, name: string): seq<string>
    requires !IsWrappedPayload(t)
    decreases t, 2
  {
    match t
    case Alias(u) => DeclaredBare(u, name)
    case Borrow(u) => DeclaredBare(u, name)
    case Text => [name + ".data", name + ".len"]
    case List(e) =>
      if IsListOfU8(e) then [name + ".data", name + ".len"]
      else [name + ".data", name + ".len", name + ".byte_len"]
    case _ => Declared(t, name)
  }
}
