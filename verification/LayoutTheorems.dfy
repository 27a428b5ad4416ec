/** The paths generated code touches are the members the generated struct declares. */
module LayoutTheorems {
  import opened Wrappers
  import opened Schema
  import opened Layout
  import opened Sequences

  /** A C identifier never holds a path separator. */
  predicate Clean(name: string) {
    name != "" && '.' !in name && '>' !in name
  }

  /** A path that ends where a new component may begin. */
  predicate Anchored(prefix: string) {
    prefix == "" || prefix[|prefix| - 1] == '.' || prefix[|prefix| - 1] == '>'
  }

  predicate CleanNames(names: seq<string>, n: nat) {
    n <= |names| && forall i :: 0 <= i < n ==> Clean(names[i])
  }

  predicate CleanTy(t: Ty)
    decreases t, 1
  {
    match t
    case Alias(u) => CleanTy(u)
    case Borrow(u) => CleanTy(u)
    case Opt(u) => CleanTy(u)
    case Res(ok, err) => CleanTyOpt(ok) && CleanTyOpt(err)
    case Tuple(ts) => forall u | u in ts :: CleanTy(u)
    case Record(names, ts) => CleanNames(names, |ts|) && forall u | u in ts :: CleanTy(u)
    case Variant(names, ps) => CleanNames(names, |ps|) && forall p | p in ps :: CleanTyOpt(p)
    case _ => true
  }

  predicate CleanTyOpt(t: Option<Ty>)
    decreases t, 0
  {
    t.Some? ==> CleanTy(t.value)
  }

  lemma FieldStartOf(prefix: string, name: string)
    requires Anchored(prefix) && Clean(name)
    ensures FieldStart(prefix + name) == |prefix|
    ensures AccessPrefix(prefix + name) == prefix && AccessField(prefix + name) == name
  {
    var s := prefix + name;
    forall i | |prefix| <= i < |s| ensures s[i] != '.' && s[i] != '>' {
      assert s[i] == name[i - |prefix|];
    }
    if prefix != "" {
      assert s[|prefix| - 1] == prefix[|prefix| - 1];
    }
  }

  lemma {:induction false} DigitsOnly(n: nat)
    ensures Decimal(n) != "" && forall i :: 0 <= i < |Decimal(n)| ==> '0' <= Decimal(n)[i] <= '9'
  {
    if n >= 10 {
      DigitsOnly(n / 10);
    }
  }

  lemma CleanElement(name: string, i: nat)
    requires Clean(name)
    ensures Clean(name + "_" + Decimal(i))
  {
    DigitsOnly(i);
  }

  lemma {:induction false} PrefixedConcat(prefix: string, a: seq<string>, b: seq<string>)
    ensures Prefixed(prefix, a + b) == Prefixed(prefix, a) + Prefixed(prefix, b)
  {
  }

  lemma {:induction false} PrefixedTwice(p: string, q: string, names: seq<string>)
    ensures Prefixed(p, Prefixed(q, names)) == Prefixed(p + q, names)
  {
    if names != [] {
      assert p + (q + names[0]) == p + q + names[0];
      PrefixedTwice(p, q, names[1..]);
    }
  }

  lemma PrefixedCons(prefix: string, head: string, tail: seq<string>)
    ensures Prefixed(prefix, [head] + tail) == [prefix + head] + Prefixed(prefix, tail)
  {
    assert ([head] + tail)[1..] == tail;
  }

  lemma PrefixedArms(p: string, head: string, q: string, a: seq<string>, r: string, b: seq<string>)
    ensures Prefixed(p, [head] + Prefixed(q, a) + Prefixed(r, b)) ==
            [p + head] + Prefixed(p + q, a) + Prefixed(p + r, b)
  {
    PrefixedConcat(p, [head] + Prefixed(q, a), Prefixed(r, b));
    PrefixedCons(p, head, Prefixed(q, a));
    PrefixedTwice(p, q, a);
    PrefixedTwice(p, r, b);
  }

  // ---- Agreement ----

  lemma BlobAgrees(prefix: string, name: string, sep: string)
    ensures BlobPaths(prefix + name + sep) == Prefixed(prefix, [name + (sep + "data"), name + (sep + "len")])
    ensures [prefix + name + sep + "byte_len"] == Prefixed(prefix, [name + (sep + "byte_len")])
  {
    assert prefix + (name + (sep + "data")) == prefix + name + sep + "data";
    assert prefix + (name + (sep + "len")) == prefix + name + sep + "len";
    assert prefix + (name + (sep + "byte_len")) == prefix + name + sep + "byte_len";
  }

  /** For every type and field name, the paths generated code touches are exactly the
      declared members, in declaration order, behind the path to the struct. */
  lemma {:induction false} LayoutAgrees(t: Ty, prefix: string, name: string)
    requires Anchored(prefix) && Clean(name) && CleanTy(t)
    ensures Paths(t, prefix + name, "_") == Prefixed(prefix, Declared(t, name))
    decreases t, 1
  {
    match t
    case Alias(u) => LayoutAgrees(u, prefix, name);
    case Borrow(u) => LayoutAgrees(u, prefix, name);
    case Boolean =>
    case Scalar(_) =>
    case Text => BlobFieldAgrees(prefix, name);
    case List(e) => ListFieldAgrees(e, prefix, name);
    case Opt(u) =>
      LayoutAgrees(u, prefix, name);
      OptionFieldAgrees(u, prefix, name);
    case Res(ok, err) => ResultAgrees(ok, err, prefix, name);
    case Tuple(ts) =>
      ElementNames(prefix, name, |ts|);
      LayoutAgreesAll(ts, prefix, ElementPaths(name, |ts|), ElementPaths(prefix + name, |ts|));
    case Record(names, ts) => RecordAgrees(t, prefix, name);
    case Variant(names, ps) => VariantAgrees(t, prefix, name);
  }

  lemma BlobFieldAgrees(prefix: string, name: string)
    ensures BlobPaths(prefix + name + "_") == Prefixed(prefix, [name + "_data", name + "_len"])
    ensures [prefix + name + "_" + "byte_len"] == Prefixed(prefix, [name + "_byte_len"])
  {
    BlobAgrees(prefix, name, "_");
    assert "_" + "data" == "_data" && "_" + "len" == "_len" && "_" + "byte_len" == "_byte_len";
  }

  lemma ListFieldAgrees(e: Ty, prefix: string, name: string)
    ensures Paths(List(e), prefix + name, "_") == Prefixed(prefix, Declared(List(e), name))
  {
    BlobFieldAgrees(prefix, name);
    PrefixedConcat(prefix, [name + "_data", name + "_len"], [name + "_byte_len"]);
    assert [name + "_data", name + "_len"] + [name + "_byte_len"] ==
           [name + "_data", name + "_len", name + "_byte_len"];
  }

  lemma OptionFieldAgrees(u: Ty, prefix: string, name: string)
    requires Anchored(prefix) && Clean(name)
    requires Paths(u, prefix + name, "_") == Prefixed(prefix, Declared(u, name))
    ensures Paths(Opt(u), prefix + name, "_") == Prefixed(prefix, Declared(Opt(u), name))
  {
    OptionPathsOf(prefix, name);
    PrefixedCons(prefix, "has_" + name, Declared(u, name));
  }

  lemma OptionPathsOf(prefix: string, name: string)
    requires Anchored(prefix) && Clean(name)
    ensures OptionPaths(prefix + name, "_") == (prefix + ("has_" + name), prefix + name)
  {
    FieldStartOf(prefix, name);
    assert prefix + ("has_" + name) == prefix + "has_" + name;
  }

  lemma ElementNames(prefix: string, name: string, n: nat)
    requires Clean(name)
    ensures forall i :: 0 <= i < n ==> Clean(ElementPaths(name, n)[i])
    ensures forall i :: 0 <= i < n ==> ElementPaths(prefix + name, n)[i] == prefix + ElementPaths(name, n)[i]
  {
    forall i | 0 <= i < n
      ensures Clean(ElementPaths(name, n)[i])
      ensures ElementPaths(prefix + name, n)[i] == prefix + ElementPaths(name, n)[i]
    {
      CleanElement(name, i);
      assert prefix + (name + "_" + Decimal(i)) == prefix + name + "_" + Decimal(i);
    }
  }

  lemma ResultPathsOf(prefix: string, name: string)
    requires Anchored(prefix) && Clean(name)
    ensures ResultPaths(prefix + name, "_") ==
            (prefix + ("is_" + name + "_ok"), prefix + (name + "_val.ok.") + "v", prefix + (name + "_val.err.") + "v")
  {
    FieldStartOf(prefix, name);
    assert prefix + ("is_" + name + "_ok") == prefix + "is_" + name + "_ok";
    assert prefix + (name + "_val.ok.") + "v" == prefix + name + "_val.ok.v";
    assert prefix + (name + "_val.err.") + "v" == prefix + name + "_val.err.v";
  }

  lemma {:induction false} ResultAgrees(ok: Option<Ty>, err: Option<Ty>, prefix: string, name: string)
    requires Anchored(prefix) && Clean(name) && CleanTyOpt(ok) && CleanTyOpt(err)
    ensures Paths(Res(ok, err), prefix + name, "_") == Prefixed(prefix, Declared(Res(ok, err), name))
    decreases Res(ok, err), 0
  {
    ResultShape(ok, err, prefix, name);
    ArmAgrees(ok, prefix + (name + "_val.ok."));
    ArmAgrees(err, prefix + (name + "_val.err."));
    ResultMembersAgree(prefix, name, DeclaredOpt(ok, "v"), DeclaredOpt(err, "v"));
  }

  lemma ResultShape(ok: Option<Ty>, err: Option<Ty>, prefix: string, name: string)
    requires Anchored(prefix) && Clean(name)
    ensures Paths(Res(ok, err), prefix + name, "_") ==
            [prefix + ("is_" + name + "_ok")] + PathsOpt(ok, prefix + (name + "_val.ok.") + "v", "_")
              + PathsOpt(err, prefix + (name + "_val.err.") + "v", "_")
  {
    ResultPathsOf(prefix, name);
  }

  lemma ResultMembersAgree(prefix: string, name: string, ok: seq<string>, err: seq<string>)
    ensures [prefix + ("is_" + name + "_ok")] + Prefixed(prefix + (name + "_val.ok."), ok)
              + Prefixed(prefix + (name + "_val.err."), err) ==
            Prefixed(prefix,
                     ["is_" + name + "_ok"] + Prefixed(name + "_val.ok.", ok) + Prefixed(name + "_val.err.", err))
  {
    PrefixedArms(prefix, "is_" + name + "_ok", name + "_val.ok.", ok, name + "_val.err.", err);
  }

  lemma {:induction false} ArmAgrees(t: Option<Ty>, base: string)
    requires Anchored(base) && CleanTyOpt(t)
    ensures PathsOpt(t, base + "v", "_") == Prefixed(base, DeclaredOpt(t, "v"))
    decreases t, 2
  {
    if t.Some? {
      LayoutAgrees(t.value, base, "v");
    }
  }

  lemma {:induction false} LayoutAgreesAll(ts: seq<Ty>, prefix: string, names: seq<string>, accesses: seq<string>)
    requires |ts| == |names| == |accesses| && Anchored(prefix)
    requires forall i :: 0 <= i < |ts| ==> Clean(names[i]) && accesses[i] == prefix + names[i]
    requires forall u | u in ts :: CleanTy(u)
    ensures PathsAll(ts, accesses) == Prefixed(prefix, DeclaredAll(ts, names))
    decreases ts, 0
  {
    if ts != [] {
      LayoutAgrees(ts[0], prefix, names[0]);
      LayoutAgreesAll(ts[1..], prefix, names[1..], accesses[1..]);
      PrefixedConcat(prefix, Declared(ts[0], names[0]), DeclaredAll(ts[1..], names[1..]));
    }
  }

  lemma {:induction false} RecordAgrees(t: Ty, prefix: string, name: string)
    requires t.Record? && CleanTy(t)
    ensures Paths(t, prefix + name, "_") == Prefixed(prefix, Declared(t, name))
    decreases t, 0
  {
    var names, ts := t.fieldNames, t.fields;
    var base := prefix + name + ".";
    assert prefix + (name + ".") == base;
    LayoutAgreesAll(ts, base, MemberPaths("", names, |ts|), MemberPaths(base, names, |ts|));
    PrefixedTwice(prefix, name + ".", DeclaredAll(ts, MemberPaths("", names, |ts|)));
  }

  lemma {:induction false} VariantAgrees(t: Ty, prefix: string, name: string)
    requires t.Variant? && CleanTy(t)
    ensures Paths(t, prefix + name, "_") == Prefixed(prefix, Declared(t, name))
    decreases t, 0
  {
    var names, ps := t.caseNames, t.payloads;
    var base := prefix + name + ".";
    assert prefix + (name + ".") == base;
    assert base + "case_tag" == prefix + name + ".case_tag";
    CasesAgree(ps, names, base);
    PrefixedConcat(base, ["case_tag"], DeclaredCases(ps, names));
    PrefixedTwice(prefix, name + ".", ["case_tag"] + DeclaredCases(ps, names));
  }

  lemma {:induction false} CasesAgree(ps: seq<Option<Ty>>, names: seq<string>, base: string)
    requires Anchored(base) && CleanNames(names, |ps|) && forall p | p in ps :: CleanTyOpt(p)
    ensures PathsCases(ps, names, base) == Prefixed(base, DeclaredCases(ps, names))
    decreases ps, 0
  {
    if ps != [] {
      CaseAgrees(ps[0], names[0], base);
      CasesAgree(ps[1..], names[1..], base);
      PrefixedConcat(base, Prefixed("val.", DeclaredPayload(ps[0], names[0])), DeclaredCases(ps[1..], names[1..]));
    }
  }

  lemma {:induction false} CaseAgrees(p: Option<Ty>, name: string, base: string)
    requires Anchored(base) && Clean(name) && CleanTyOpt(p)
    ensures CasePaths(p, name, base) == Prefixed(base, Prefixed("val.", DeclaredPayload(p, name)))
    decreases p, 4
  {
    if p.Some? {
      var inner := base + "val.";
      PrefixedTwice(base, "val.", DeclaredPayload(p, name));
      if IsWrappedPayload(p.value) {
        LayoutAgrees(p.value, inner + (name + "."), "v");
        assert inner + (name + ".") + "v" == base + "val." + name + ".v";
        PrefixedTwice(inner, name + ".", Declared(p.value, "v"));
      } else {
        BarePayloadAgrees(p.value, inner, name);
      }
    }
  }

  lemma {:induction false} BarePayloadAgrees(t: Ty, prefix: string, name: string)
    requires !IsWrappedPayload(t) && Anchored(prefix) && Clean(name) && CleanTy(t)
    ensures Paths(t, prefix + name, ".") == Prefixed(prefix, DeclaredBare(t, name))
    decreases t, 3
  {
    match t
    case Alias(u) => BarePayloadAgrees(u, prefix, name);
    case Borrow(u) => BarePayloadAgrees(u, prefix, name);
    case Text => BlobMemberAgrees(prefix, name);
    case List(e) =>
      BlobMemberAgrees(prefix, name);
      PrefixedConcat(prefix, [name + ".data", name + ".len"], [name + ".byte_len"]);
      assert [name + ".data", name + ".len"] + [name + ".byte_len"] ==
             [name + ".data", name + ".len", name + ".byte_len"];
    case Boolean =>
    case Scalar(_) =>
    case Record(_, _) => RecordAgrees(t, prefix, name);
    case Variant(_, _) => VariantAgrees(t, prefix, name);
    case Opt(_) | Tuple(_) | Res(_, _) =>
  }

  lemma BlobMemberAgrees(prefix: string, name: string)
    ensures BlobPaths(prefix + name + ".") == Prefixed(prefix, [name + ".data", name + ".len"])
    ensures [prefix + name + "." + "byte_len"] == Prefixed(prefix, [name + ".byte_len"])
  {
    BlobAgrees(prefix, name, ".");
    assert "." + "data" == ".data" && "." + "len" == ".len" && "." + "byte_len" == ".byte_len";
  }

  // ---- Options directly inside options ----

  /** An option behind an option, through any aliases and borrows, declares its presence
      flag twice, so no C compiler takes the struct. */
  lemma {:induction false} NestedOptionDeclaresTwice(u: Ty, name: string)
    requires Unwrap(u).Opt?
    ensures var d := Declared(Opt(u), name); |d| >= 2 && d[0] == d[1] == "has_" + name && !Distinct(d)
  {
    FirstFlag(u, name);
    assert Declared(Opt(u), name)[1] == Declared(u, name)[0];
  }

  lemma {:induction false} FirstFlag(u: Ty, name: string)
    requires Unwrap(u).Opt?
    ensures Declared(u, name) != [] && Declared(u, name)[0] == "has_" + name
  {
    match u
    case Alias(w) => FirstFlag(w, name);
    case Borrow(w) => FirstFlag(w, name);
    case Opt(_) =>
  }
}
