/** When a generated struct declares each of its members once. */
module LayoutDistinct {
  import opened Wrappers
  import opened Schema
  import opened Layout
  import opened LayoutTheorems
  import opened Sequences

  // ---- The condition on the type ----

  /** No option sits directly inside an option, through any aliases and borrows. */
  predicate NoNestedOption(t: Ty)
    decreases t, 1
  {
    match t
    case Alias(u) => NoNestedOption(u)
    case Borrow(u) => NoNestedOption(u)
    case Opt(u) => !Unwrap(u).Opt? && NoNestedOption(u)
    case Res(ok, err) => NoNestedOptionOpt(ok) && NoNestedOptionOpt(err)
    case Tuple(ts) => forall u | u in ts :: NoNestedOption(u)
    case Record(_, ts) => forall u | u in ts :: NoNestedOption(u)
    case Variant(_, ps) => forall p | p in ps :: NoNestedOptionOpt(p)
    case _ => true
  }

  predicate NoNestedOptionOpt(t: Option<Ty>)
    decreases t, 0
  {
    t.Some? ==> NoNestedOption(t.value)
  }

  predicate Apart(a: seq<string>, b: seq<string>) {
    forall x | x in a :: x !in b
  }

  /** Different fields of a record, and different cases of a variant, declare different members. */
  predicate MembersApart(t: Ty)
    decreases t, 1
  {
    match t
    case Alias(u) => MembersApart(u)
    case Borrow(u) => MembersApart(u)
    case Opt(u) => MembersApart(u)
    case Res(ok, err) => MembersApartOpt(ok) && MembersApartOpt(err)
    case Tuple(ts) => forall u | u in ts :: MembersApart(u)
    case Record(names, ts) =>
      FieldsApart(ts, MemberPaths("", names, |ts|)) && forall u | u in ts :: MembersApart(u)
    case Variant(names, ps) => CasesApart(ps, names) && forall p | p in ps :: MembersApartOpt(p)
    case _ => true
  }

  predicate MembersApartOpt(t: Option<Ty>)
    decreases t, 0
  {
    t.Some? ==> MembersApart(t.value)
  }

  predicate FieldsApart(ts: seq<Ty>, names: seq<string>)
    requires |ts| == |names|
  {
    forall i, j | 0 <= i < j < |ts| :: Apart(Declared(ts[i], names[i]), Declared(ts[j], names[j]))
  }

  predicate CasesApart(ps: seq<Option<Ty>>, names: seq<string>) {
    forall i, j | 0 <= i < j < |ps| ::
      Apart(DeclaredPayload(ps[i], NameAt(names, i)), DeclaredPayload(ps[j], NameAt(names, j)))
  }

  // ---- Sequences without repetition ----

  lemma DistinctSplit(a: seq<string>, b: seq<string>)
    ensures Distinct(a + b) <==> Distinct(a) && Distinct(b) && Apart(a, b)
  {
    if Distinct(a + b) {
      DistinctConcat(a, b);
    }
    if Distinct(a) && Distinct(b) && Apart(a, b) {
      var c := a + b;
      forall i, j | 0 <= i < j < |c| ensures c[i] != c[j] {
        if i < |a| <= j {
          assert c[i] in a && c[j] in b;
        }
      }
    }
  }

  lemma DistinctPrefixed(prefix: string, names: seq<string>)
    ensures Distinct(Prefixed(prefix, names)) <==> Distinct(names)
  {
    var ps := Prefixed(prefix, names);
    forall i, j | 0 <= i < j < |names| ensures ps[i] == ps[j] <==> names[i] == names[j] {
      assert ps[i][|prefix|..] == names[i] && ps[j][|prefix|..] == names[j];
    }
  }

  lemma PrefixedIn(prefix: string, names: seq<string>, m: string)
    requires m in Prefixed(prefix, names)
    ensures |prefix| <= |m| && m[..|prefix|] == prefix && m[|prefix|..] in names
  {
    var i :| 0 <= i < |names| && Prefixed(prefix, names)[i] == m;
    assert m[|prefix|..] == names[i];
  }

  lemma InPrefixed(prefix: string, names: seq<string>, x: string)
    requires x in names
    ensures prefix + x in Prefixed(prefix, names)
  {
    var i :| 0 <= i < |names| && names[i] == x;
    assert Prefixed(prefix, names)[i] == prefix + x;
  }

  lemma ApartPrefixed(prefix: string, a: seq<string>, b: seq<string>)
    ensures Apart(Prefixed(prefix, a), Prefixed(prefix, b)) <==> Apart(a, b)
  {
    if Apart(a, b) {
      forall m | m in Prefixed(prefix, a) ensures m !in Prefixed(prefix, b) {
        PrefixedIn(prefix, a, m);
        if m in Prefixed(prefix, b) {
          PrefixedIn(prefix, b, m);
        }
      }
    }
    if Apart(Prefixed(prefix, a), Prefixed(prefix, b)) {
      forall x | x in a ensures x !in b {
        InPrefixed(prefix, a, x);
        if x in b {
          InPrefixed(prefix, b, x);
        }
      }
    }
  }

  // ---- The shape of a declared name ----

  predicate IsDigit(c: char) {
    '0' <= c <= '9'
  }

  /** What may follow a field name: nothing, a path, or an underscore and the start of a suffix. */
  predicate Tail(s: string) {
    s == "" || s[0] == '.' || (s[0] == '_' && |s| > 1 && (s[1] in "dlbvo" || IsDigit(s[1])))
  }

  predicate StartsWith(m: string, p: string) {
    |p| <= |m| && m[..|p|] == p
  }

  /** `m` is made of the field name `base` behind the marker `p`. */
  predicate Marked(m: string, p: string, base: string) {
    StartsWith(m, p + base) && Tail(m[|p| + |base|..])
  }

  predicate Belongs(m: string, base: string) {
    Marked(m, "", base) || Marked(m, "has_", base) || Marked(m, "is_", base)
  }

  lemma MarkedBy(p: string, base: string, tail: string)
    requires Tail(tail)
    ensures Marked(p + base + tail, p, base)
  {
    assert (p + base + tail)[|p| + |base|..] == tail;
  }

  lemma PlainBy(base: string, tail: string)
    requires Tail(tail)
    ensures Marked(base + tail, "", base)
  {
    assert "" + base == base;
    assert (base + tail)[|base|..] == tail;
  }

  function ElementName(name: string, i: nat): string {
    name + "_" + Decimal(i)
  }

  lemma ElementShape(m: string, p: string, name: string, i: nat)
    requires Marked(m, p, ElementName(name, i))
    ensures Marked(m, p, name)
    ensures var n := |p| + |name|; |m| > n + 1 && m[n] == '_' && IsDigit(m[n + 1])
  {
    DigitsOnly(i);
    var e, n := p + ElementName(name, i), |p| + |name|;
    assert e[..n] == p + name && e[n] == '_' && e[n + 1] == Decimal(i)[0];
    assert m[..|e|] == e;
    assert m[..n] == e[..n] && m[n] == e[n] && m[n + 1] == e[n + 1];
  }

  lemma ElementBelongs(m: string, name: string, i: nat)
    requires Belongs(m, ElementName(name, i))
    ensures Belongs(m, name)
  {
    if Marked(m, "", ElementName(name, i)) {
      ElementShape(m, "", name, i);
    } else if Marked(m, "has_", ElementName(name, i)) {
      ElementShape(m, "has_", name, i);
    } else {
      ElementShape(m, "is_", name, i);
    }
  }

  lemma {:induction false} DeclaredBelong(t: Ty, name: string, m: string)
    requires m in Declared(t, name)
    ensures Belongs(m, name)
    decreases t, 1
  {
    match t
    case Alias(u) => DeclaredBelong(u, name, m);
    case Borrow(u) => DeclaredBelong(u, name, m);
    case Opt(u) =>
      if m == "has_" + name {
        MarkedBy("has_", name, "");
        assert "has_" + name + "" == m;
      } else {
        DeclaredBelong(u, name, m);
      }
    case Tuple(ts) => DeclaredElementBelong(ts, name, ElementPaths(name, |ts|), 0, m);
    case Record(names, ts) => DottedBelong(name, ".", DeclaredAll(ts, MemberPaths("", names, |ts|)), m);
    case Variant(names, ps) => DottedBelong(name, ".", ["case_tag"] + DeclaredCases(ps, names), m);
    case Res(ok, err) => ResultBelong(ok, err, name, m);
    case Text | Boolean | Scalar(_) | List(_) => LeafBelong(t, name, m);
  }

  lemma LeafBelong(t: Ty, name: string, m: string)
    requires t.Text? || t.Boolean? || t.Scalar? || t.List?
    requires m in Declared(t, name)
    ensures Marked(m, "", name)
  {
    PlainBy(name, "");
    PlainBy(name, "_data");
    PlainBy(name, "_len");
    PlainBy(name, "_byte_len");
    assert name + "" == name;
  }

  lemma DottedBelong(name: string, dot: string, inner: seq<string>, m: string)
    requires Tail(dot) && dot != "" && m in Prefixed(name + dot, inner)
    ensures Marked(m, "", name)
  {
    PrefixedIn(name + dot, inner, m);
    var rest := m[|name + dot|..];
    assert m == name + dot + rest == name + (dot + rest);
    PlainBy(name, dot + rest);
  }

  lemma ResultBelong(ok: Option<Ty>, err: Option<Ty>, name: string, m: string)
    requires m in Declared(Res(ok, err), name)
    ensures m == "is_" + name + "_ok" || Marked(m, "", name)
    ensures Belongs(m, name)
  {
    MarkedBy("is_", name, "_ok");
    var a, b := Prefixed(name + "_val.ok.", DeclaredOpt(ok, "v")), Prefixed(name + "_val.err.", DeclaredOpt(err, "v"));
    if m in a {
      DottedBelong(name, "_val.ok.", DeclaredOpt(ok, "v"), m);
    } else if m in b {
      DottedBelong(name, "_val.err.", DeclaredOpt(err, "v"), m);
    }
  }

  lemma {:induction false} DeclaredElementBelong(ts: seq<Ty>, name: string, names: seq<string>, at: nat, m: string)
    requires |ts| == |names| && m in DeclaredAll(ts, names)
    requires forall i :: 0 <= i < |ts| ==> names[i] == ElementName(name, at + i)
    ensures Belongs(m, name)
    decreases ts, 0
  {
    if m in Declared(ts[0], names[0]) {
      DeclaredBelong(ts[0], names[0], m);
      ElementBelongs(m, name, at);
    } else {
      DeclaredElementBelong(ts[1..], name, names[1..], at + 1, m);
    }
  }

  // ---- Names that cannot meet ----

  /** A name that is both `name..` and `p name..` repeats the marker all the way through. */
  lemma {:induction false} Periodic(m: string, p: string, name: string, k: nat)
    requires p != "" && StartsWith(m, name) && StartsWith(m, p + name) && k < |p| + |name|
    ensures m[k] in p
    decreases k
  {
    assert m[k] == (p + name)[k];
    if k >= |p| {
      assert m[k - |p|] == name[k - |p|];
      Periodic(m, p, name, k - |p|);
    }
  }

  /** No plain name is a marked one, for the same field. */
  lemma PlainIsUnmarked(m: string, p: string, name: string)
    requires (p == "has_" || p == "is_") && StartsWith(m, p + name)
    ensures !Marked(m, "", name)
  {
    assert "" + name == name;
    var n := |name|;
    if StartsWith(m, name) {
      Periodic(m, p, name, n);
      Periodic(m, p, name, n + 1);
      assert m[n..][0] == m[n] && m[n..][1] == m[n + 1];
    }
  }

  lemma MarkersDiffer(m: string, name: string, other: string)
    ensures !StartsWith(m, "has_" + name) || !StartsWith(m, "is_" + other)
  {
    assert ("has_" + name)[0] == 'h' && ("is_" + other)[0] == 'i';
    if StartsWith(m, "has_" + name) {
      assert m[0] == ("has_" + name)[0];
    }
  }

  lemma {:induction false} DecimalInjective(i: nat, j: nat)
    requires Decimal(i) == Decimal(j)
    ensures i == j
    decreases i
  {
    if i >= 10 && j >= 10 {
      var a, b := Decimal(i / 10), Decimal(j / 10);
      assert a == Decimal(i)[..|Decimal(i)| - 1] && b == Decimal(j)[..|Decimal(j)| - 1];
      DecimalInjective(i / 10, j / 10);
      LastDigit(i);
      LastDigit(j);
    } else {
      LastDigit(i);
      LastDigit(j);
      LongDecimal(i);
      LongDecimal(j);
    }
  }

  lemma LastDigit(n: nat)
    ensures Decimal(n) != "" && Decimal(n)[|Decimal(n)| - 1] == DIGITS[n % 10]
    ensures forall d :: 0 <= d < 10 && DIGITS[d] == DIGITS[n % 10] ==> d == n % 10
  {
  }

  lemma LongDecimal(n: nat)
    ensures |Decimal(n)| == 1 <==> n < 10
  {
    if n >= 10 {
      DigitsOnly(n / 10);
    }
  }

  lemma SameMarker(m: string, p: string, name: string, i: nat, j: nat)
    requires Marked(m, p, ElementName(name, i)) && Marked(m, p, ElementName(name, j))
    ensures i == j
  {
    NumberAt(m, p, name, i);
    NumberAt(m, p, name, j);
    DecimalInjective(i, j);
  }

  /** Behind marker, field name and underscore stands the element's whole number. */
  lemma NumberAt(m: string, p: string, name: string, i: nat)
    requires Marked(m, p, ElementName(name, i))
    ensures var n, d := |p| + |name| + 1, |Decimal(i)|;
            && n + d <= |m| && m[n..n + d] == Decimal(i) && (n + d < |m| ==> !IsDigit(m[n + d]))
            && forall k :: n <= k < n + d ==> IsDigit(m[k])
  {
    var e, n, d := p + ElementName(name, i), |p| + |name| + 1, |Decimal(i)|;
    DigitsOnly(i);
    assert e[n..] == Decimal(i) && |e| == n + d;
    assert m[..|e|][n..] == m[n..n + d];
    assert n + d < |m| ==> m[|e|..][0] == m[n + d];
    forall k | n <= k < n + d ensures IsDigit(m[k]) {
      assert m[k] == m[n..n + d][k - n];
    }
  }

  /** Two elements of a tuple share no name. */
  lemma ElementsApart(m: string, name: string, i: nat, j: nat)
    requires i != j && Belongs(m, ElementName(name, i))
    ensures !Belongs(m, ElementName(name, j))
  {
    if Belongs(m, ElementName(name, j)) {
      OneMarker(m, name);
      MarkerOfElement(m, name, i);
      MarkerOfElement(m, name, j);
      var p := if Marked(m, "", name) then "" else if Marked(m, "has_", name) then "has_" else "is_";
      SameMarker(m, p, name, i, j);
    }
  }

  lemma OneMarker(m: string, name: string)
    ensures Marked(m, "", name) ==> !Marked(m, "has_", name) && !Marked(m, "is_", name)
    ensures Marked(m, "has_", name) ==> !Marked(m, "is_", name)
  {
    if Marked(m, "has_", name) {
      PlainIsUnmarked(m, "has_", name);
    }
    if Marked(m, "is_", name) {
      PlainIsUnmarked(m, "is_", name);
    }
    MarkersDiffer(m, name, name);
  }

  lemma MarkerOfElement(m: string, name: string, i: nat)
    ensures Marked(m, "", ElementName(name, i)) ==> Marked(m, "", name)
    ensures Marked(m, "has_", ElementName(name, i)) ==> Marked(m, "has_", name)
    ensures Marked(m, "is_", ElementName(name, i)) ==> Marked(m, "is_", name)
  {
    if Marked(m, "", ElementName(name, i)) {
      ElementShape(m, "", name, i);
    }
    if Marked(m, "has_", ElementName(name, i)) {
      ElementShape(m, "has_", name, i);
    }
    if Marked(m, "is_", ElementName(name, i)) {
      ElementShape(m, "is_", name, i);
    }
  }

  // ---- When the presence flag of an option is new ----

  /** Only another option declares the flag of an option for the same field. */
  lemma {:induction false} FlagIsNew(u: Ty, name: string, m: string)
    requires !Unwrap(u).Opt? && m in Declared(u, name)
    ensures m != "has_" + name
    decreases u, 1
  {
    PlainIsNoFlag(m, name);
    match u
    case Alias(w) => FlagIsNew(w, name, m);
    case Borrow(w) => FlagIsNew(w, name, m);
    case Text | Boolean | Scalar(_) | List(_) => LeafBelong(u, name, m);
    case Res(ok, err) =>
      ResultBelong(ok, err, name, m);
      assert ("is_" + name + "_ok")[0] == 'i' && ("has_" + name)[0] == 'h';
    case Tuple(ts) => ElementFlagIsNew(ts, name, ElementPaths(name, |ts|), 0, m);
    case Record(names, ts) => DottedBelong(name, ".", DeclaredAll(ts, MemberPaths("", names, |ts|)), m);
    case Variant(names, ps) => DottedBelong(name, ".", ["case_tag"] + DeclaredCases(ps, names), m);
    case Opt(_) =>
  }

  lemma PlainIsNoFlag(m: string, name: string)
    ensures Marked(m, "", name) ==> m != "has_" + name
  {
    if m == "has_" + name {
      assert m[..|m|] == m;
      PlainIsUnmarked(m, "has_", name);
    }
  }

  lemma {:induction false} ElementFlagIsNew(ts: seq<Ty>, name: string, names: seq<string>, at: nat, m: string)
    requires |ts| == |names| && m in DeclaredAll(ts, names)
    requires forall i :: 0 <= i < |ts| ==> names[i] == ElementName(name, at + i)
    ensures m != "has_" + name
    decreases |ts|
  {
    if m in Declared(ts[0], names[0]) {
      DeclaredBelong(ts[0], names[0], m);
      ElementIsNoFlag(m, name, at);
    } else {
      ElementFlagIsNew(ts[1..], name, names[1..], at + 1, m);
    }
  }

  lemma ElementIsNoFlag(m: string, name: string, i: nat)
    requires Belongs(m, ElementName(name, i))
    ensures m != "has_" + name
  {
    MarkerOfElement(m, name, i);
    PlainIsNoFlag(m, name);
    MarkersDiffer(m, name, name);
    if Marked(m, "has_", ElementName(name, i)) {
      ElementShape(m, "has_", name, i);
    }
  }

  // ---- The members of one field ----

  /** Every part of a list of fields declares its own members once, and no two share one. */
  lemma {:induction false} AllDistinct(ts: seq<Ty>, names: seq<string>)
    requires |ts| == |names|
    ensures Distinct(DeclaredAll(ts, names)) <==>
            (forall i :: 0 <= i < |ts| ==> Distinct(Declared(ts[i], names[i]))) && FieldsApart(ts, names)
  {
    if ts != [] {
      var head, tail := Declared(ts[0], names[0]), DeclaredAll(ts[1..], names[1..]);
      DistinctSplit(head, tail);
      AllDistinct(ts[1..], names[1..]);
      ApartFromAll(head, ts[1..], names[1..]);
      ApartSplit(ts, names);
      assert (forall i :: 0 <= i < |ts| ==> Distinct(Declared(ts[i], names[i]))) <==>
             Distinct(head) && forall i :: 0 <= i < |ts[1..]| ==> Distinct(Declared(ts[1..][i], names[1..][i])) by {
        forall i | 0 < i < |ts|
          ensures Declared(ts[i], names[i]) == Declared(ts[1..][i - 1], names[1..][i - 1])
        {
        }
      }
    }
  }

  lemma {:induction false} ApartFromAll(a: seq<string>, ts: seq<Ty>, names: seq<string>)
    requires |ts| == |names|
    ensures Apart(a, DeclaredAll(ts, names)) <==> forall j :: 0 <= j < |ts| ==> Apart(a, Declared(ts[j], names[j]))
  {
    if ts != [] {
      ApartFromAll(a, ts[1..], names[1..]);
      forall j | 0 < j < |ts| ensures Declared(ts[j], names[j]) == Declared(ts[1..][j - 1], names[1..][j - 1]) {
      }
      if forall j :: 0 <= j < |ts| ==> Apart(a, Declared(ts[j], names[j])) {
        forall j | 0 <= j < |ts[1..]| ensures Apart(a, Declared(ts[1..][j], names[1..][j])) {
          assert Apart(a, Declared(ts[j + 1], names[j + 1]));
        }
      }
    }
  }

  lemma ApartSplit(ts: seq<Ty>, names: seq<string>)
    requires |ts| == |names| && ts != []
    ensures FieldsApart(ts, names) <==>
            FieldsApart(ts[1..], names[1..])
            && forall j :: 0 <= j < |ts[1..]| ==> Apart(Declared(ts[0], names[0]), Declared(ts[1..][j], names[1..][j]))
  {
    var us, ms := ts[1..], names[1..];
    assert forall i :: 0 <= i < |us| ==> us[i] == ts[i + 1] && ms[i] == names[i + 1];
    if FieldsApart(us, ms) && forall j :: 0 <= j < |us| ==> Apart(Declared(ts[0], names[0]), Declared(us[j], ms[j])) {
      forall i, j | 0 <= i < j < |ts| ensures Apart(Declared(ts[i], names[i]), Declared(ts[j], names[j])) {
        assert ts[j] == us[j - 1] && names[j] == ms[j - 1];
        if i > 0 {
          assert Apart(Declared(us[i - 1], ms[i - 1]), Declared(us[j - 1], ms[j - 1]));
        }
      }
    }
  }

  lemma TupleApart(ts: seq<Ty>, name: string)
    ensures FieldsApart(ts, ElementPaths(name, |ts|))
  {
    var names := ElementPaths(name, |ts|);
    forall i, j | 0 <= i < j < |ts| ensures Apart(Declared(ts[i], names[i]), Declared(ts[j], names[j])) {
      forall m | m in Declared(ts[i], names[i]) ensures m !in Declared(ts[j], names[j]) {
        DeclaredBelong(ts[i], names[i], m);
        ElementsApart(m, name, i, j);
        if m in Declared(ts[j], names[j]) {
          DeclaredBelong(ts[j], names[j], m);
        }
      }
    }
  }

  /** Every member is declared once exactly when no option sits directly inside an option and the
      fields of each record, and the cases of each variant, keep apart. */
  lemma {:induction false} DeclaredOnce(t: Ty, name: string)
    ensures Distinct(Declared(t, name)) <==> NoNestedOption(t) && MembersApart(t)
    decreases t, 5
  {
    match t
    case Alias(u) => DeclaredOnce(u, name);
    case Borrow(u) => DeclaredOnce(u, name);
    case Boolean | Scalar(_) =>
    case Text | List(_) => LeafOnce(t, name);
    case Opt(u) => OptionOnce(u, name);
    case Res(ok, err) => ResultOnce(ok, err, name);
    case Tuple(ts) =>
      var names := ElementPaths(name, |ts|);
      AllDistinct(ts, names);
      TupleApart(ts, name);
      PartsOnce(ts, names);
    case Record(fields, ts) =>
      var names := MemberPaths("", fields, |ts|);
      DistinctPrefixed(name + ".", DeclaredAll(ts, names));
      AllDistinct(ts, names);
      PartsOnce(ts, names);
    case Variant(cases, ps) => VariantOnce(ps, cases, name);
  }

  lemma LeafOnce(t: Ty, name: string)
    requires t.Text? || t.List?
    ensures Distinct(Declared(t, name))
  {
    assert (name + "_data")[|name| + 1] == 'd' && (name + "_len")[|name| + 1] == 'l'
           && (name + "_byte_len")[|name| + 1] == 'b';
  }

  lemma {:induction false} PartsOnce(ts: seq<Ty>, names: seq<string>)
    requires |ts| == |names|
    ensures (forall i :: 0 <= i < |ts| ==> Distinct(Declared(ts[i], names[i]))) <==>
            (forall u | u in ts :: NoNestedOption(u)) && (forall u | u in ts :: MembersApart(u))
    decreases ts, 0
  {
    forall i | 0 <= i < |ts|
      ensures Distinct(Declared(ts[i], names[i])) <==> NoNestedOption(ts[i]) && MembersApart(ts[i])
    {
      DeclaredOnce(ts[i], names[i]);
    }
    assert forall i :: 0 <= i < |ts| ==> ts[i] in ts;
    if forall i :: 0 <= i < |ts| ==> Distinct(Declared(ts[i], names[i])) {
      forall u | u in ts ensures NoNestedOption(u) && MembersApart(u) {
        var i :| 0 <= i < |ts| && ts[i] == u;
        assert Distinct(Declared(ts[i], names[i]));
      }
    }
  }

  lemma {:induction false} OptionOnce(u: Ty, name: string)
    ensures Distinct(Declared(Opt(u), name)) <==> NoNestedOption(Opt(u)) && MembersApart(Opt(u))
    decreases u, 6
  {
    var flag, inner := ["has_" + name], Declared(u, name);
    DistinctSplit(flag, inner);
    DeclaredOnce(u, name);
    if Unwrap(u).Opt? {
      FirstFlag(u, name);
      assert inner[0] in inner && "has_" + name in flag;
    } else {
      forall m | m in inner ensures m !in flag {
        FlagIsNew(u, name, m);
      }
      assert Apart(flag, inner);
    }
  }

  lemma {:induction false} ResultOnce(ok: Option<Ty>, err: Option<Ty>, name: string)
    ensures Distinct(Declared(Res(ok, err), name)) <==> NoNestedOption(Res(ok, err)) && MembersApart(Res(ok, err))
    decreases Res(ok, err), 1
  {
    var flag := ["is_" + name + "_ok"];
    var a := Prefixed(name + "_val.ok.", DeclaredOpt(ok, "v"));
    var b := Prefixed(name + "_val.err.", DeclaredOpt(err, "v"));
    DistinctSplit(flag, a);
    DistinctSplit(flag + a, b);
    DistinctPrefixed(name + "_val.ok.", DeclaredOpt(ok, "v"));
    DistinctPrefixed(name + "_val.err.", DeclaredOpt(err, "v"));
    ArmOnce(ok);
    ArmOnce(err);
    ArmsApart(name, DeclaredOpt(ok, "v"), DeclaredOpt(err, "v"));
  }

  lemma {:induction false} ArmOnce(t: Option<Ty>)
    ensures Distinct(DeclaredOpt(t, "v")) <==> NoNestedOptionOpt(t) && MembersApartOpt(t)
    decreases t, 6
  {
    if t.Some? {
      DeclaredOnce(t.value, "v");
    }
  }

  /** The flag and the two arms of a result share no member. */
  lemma ArmsApart(name: string, ok: seq<string>, err: seq<string>)
    ensures var flag := ["is_" + name + "_ok"];
            var a, b := Prefixed(name + "_val.ok.", ok), Prefixed(name + "_val.err.", err);
            Apart(flag, a) && Apart(flag + a, b)
  {
    var flag, a, b := ["is_" + name + "_ok"], Prefixed(name + "_val.ok.", ok), Prefixed(name + "_val.err.", err);
    assert StartsWith(flag[0], "is_" + name);
    PlainIsUnmarked(flag[0], "is_", name);
    assert (name + "_val.err.")[|name| + 5] == 'e';
    forall m | m in a ensures m !in flag && m !in b {
      DottedBelong(name, "_val.ok.", ok, m);
      PrefixedIn(name + "_val.ok.", ok, m);
      assert m[|name| + 5] == (name + "_val.ok.")[|name| + 5] == 'o';
      if m in b {
        PrefixedIn(name + "_val.err.", err, m);
      }
    }
    forall m | m in b ensures m !in flag {
      DottedBelong(name, "_val.err.", err, m);
    }
  }

  // ---- The members of a variant ----

  lemma {:induction false} VariantOnce(ps: seq<Option<Ty>>, names: seq<string>, name: string)
    ensures Distinct(Declared(Variant(names, ps), name)) <==>
            NoNestedOption(Variant(names, ps)) && MembersApart(Variant(names, ps))
    decreases Variant(names, ps), 1
  {
    var tag, cases := ["case_tag"], DeclaredCases(ps, names);
    DistinctPrefixed(name + ".", tag + cases);
    DistinctSplit(tag, cases);
    forall m | m in cases ensures m !in tag {
      CaseStarts(ps, names, m);
      assert "case_tag"[0] == 'c';
    }
    CasesDistinct(ps, names);
    CasesOnce(ps, names);
  }

  lemma {:induction false} CaseStarts(ps: seq<Option<Ty>>, names: seq<string>, m: string)
    requires m in DeclaredCases(ps, names)
    ensures m != "" && m[0] == 'v'
  {
    if m in Prefixed("val.", DeclaredPayload(ps[0], NameAt(names, 0))) {
      PrefixedIn("val.", DeclaredPayload(ps[0], NameAt(names, 0)), m);
    } else {
      CaseStarts(ps[1..], if names == [] then [] else names[1..], m);
    }
  }

  function Rest(names: seq<string>): seq<string> {
    if names == [] then [] else names[1..]
  }

  lemma NameBehind(names: seq<string>, i: nat)
    ensures NameAt(Rest(names), i) == NameAt(names, i + 1)
  {
  }

  lemma {:induction false} CasesDistinct(ps: seq<Option<Ty>>, names: seq<string>)
    ensures Distinct(DeclaredCases(ps, names)) <==>
            (forall i :: 0 <= i < |ps| ==> Distinct(DeclaredPayload(ps[i], NameAt(names, i)))) && CasesApart(ps, names)
  {
    if ps != [] {
      var head, tail := DeclaredPayload(ps[0], NameAt(names, 0)), DeclaredCases(ps[1..], Rest(names));
      DistinctSplit(Prefixed("val.", head), tail);
      DistinctPrefixed("val.", head);
      CasesDistinct(ps[1..], Rest(names));
      ApartFromCases(head, ps[1..], Rest(names));
      CasesSplit(ps, names);
    }
  }

  lemma {:induction false} ApartFromCases(a: seq<string>, ps: seq<Option<Ty>>, names: seq<string>)
    ensures Apart(Prefixed("val.", a), DeclaredCases(ps, names)) <==>
            forall j :: 0 <= j < |ps| ==> Apart(a, DeclaredPayload(ps[j], NameAt(names, j)))
  {
    if ps != [] {
      ApartPrefixed("val.", a, DeclaredPayload(ps[0], NameAt(names, 0)));
      ApartFromCases(a, ps[1..], Rest(names));
      forall j | 0 < j < |ps|
        ensures DeclaredPayload(ps[j], NameAt(names, j)) == DeclaredPayload(ps[1..][j - 1], NameAt(Rest(names), j - 1))
      {
        NameBehind(names, j - 1);
      }
      if forall j :: 0 <= j < |ps| ==> Apart(a, DeclaredPayload(ps[j], NameAt(names, j))) {
        forall j | 0 <= j < |ps[1..]| ensures Apart(a, DeclaredPayload(ps[1..][j], NameAt(Rest(names), j))) {
          assert Apart(a, DeclaredPayload(ps[j + 1], NameAt(names, j + 1)));
        }
      }
    }
  }

  lemma CasesSplit(ps: seq<Option<Ty>>, names: seq<string>)
    requires ps != []
    ensures (forall i :: 0 <= i < |ps| ==> Distinct(DeclaredPayload(ps[i], NameAt(names, i))))
            && CasesApart(ps, names) <==>
            && Distinct(DeclaredPayload(ps[0], NameAt(names, 0)))
            && (forall i :: 0 <= i < |ps[1..]| ==> Distinct(DeclaredPayload(ps[1..][i], NameAt(Rest(names), i))))
            && CasesApart(ps[1..], Rest(names))
            && (forall j :: 0 <= j < |ps[1..]| ==>
                  Apart(DeclaredPayload(ps[0], NameAt(names, 0)), DeclaredPayload(ps[1..][j], NameAt(Rest(names), j))))
  {
    var qs, ms := ps[1..], Rest(names);
    forall i | 0 < i < |ps|
      ensures DeclaredPayload(ps[i], NameAt(names, i)) == DeclaredPayload(qs[i - 1], NameAt(ms, i - 1))
    {
      NameBehind(names, i - 1);
    }
  }

  lemma {:induction false} CasesOnce(ps: seq<Option<Ty>>, names: seq<string>)
    ensures (forall i :: 0 <= i < |ps| ==> Distinct(DeclaredPayload(ps[i], NameAt(names, i)))) <==>
            (forall p | p in ps :: NoNestedOptionOpt(p)) && (forall p | p in ps :: MembersApartOpt(p))
    decreases ps, 0
  {
    forall i | 0 <= i < |ps|
      ensures Distinct(DeclaredPayload(ps[i], NameAt(names, i))) <==> NoNestedOptionOpt(ps[i]) && MembersApartOpt(ps[i])
    {
      PayloadOnce(ps[i], NameAt(names, i));
    }
    assert forall i :: 0 <= i < |ps| ==> ps[i] in ps;
    if forall i :: 0 <= i < |ps| ==> Distinct(DeclaredPayload(ps[i], NameAt(names, i))) {
      forall p | p in ps ensures NoNestedOptionOpt(p) && MembersApartOpt(p) {
        var i :| 0 <= i < |ps| && ps[i] == p;
        assert Distinct(DeclaredPayload(ps[i], NameAt(names, i)));
      }
    }
  }

  lemma {:induction false} PayloadOnce(p: Option<Ty>, name: string)
    ensures Distinct(DeclaredPayload(p, name)) <==> NoNestedOptionOpt(p) && MembersApartOpt(p)
    decreases p, 6
  {
    if p.Some? {
      if IsWrappedPayload(p.value) {
        DistinctPrefixed(name + ".", Declared(p.value, "v"));
        DeclaredOnce(p.value, "v");
      } else {
        BareOnce(p.value, name);
      }
    }
  }

  lemma {:induction false} BareOnce(t: Ty, name: string)
    requires !IsWrappedPayload(t)
    ensures Distinct(DeclaredBare(t, name)) <==> NoNestedOption(t) && MembersApart(t)
    decreases t, 6
  {
    match t
    case Alias(u) => BareOnce(u, name);
    case Borrow(u) => BareOnce(u, name);
    case Text | List(_) =>
      assert (name + ".data")[|name| + 1] == 'd' && (name + ".len")[|name| + 1] == 'l'
             && (name + ".byte_len")[|name| + 1] == 'b';
    case Boolean | Scalar(_) | Record(_, _) | Variant(_, _) => DeclaredOnce(t, name);
    case Opt(_) | Res(_, _) | Tuple(_) => assert false;
  }

  // ---- Consequences ----

  /** The paths generated code touches are then all different too. */
  lemma PathsOnce(t: Ty, prefix: string, name: string)
    requires Anchored(prefix) && Clean(name) && CleanTy(t)
    ensures Distinct(Paths(t, prefix + name, "_")) <==> NoNestedOption(t) && MembersApart(t)
  {
    LayoutAgrees(t, prefix, name);
    DistinctPrefixed(prefix, Declared(t, name));
    DeclaredOnce(t, name);
  }

  /** Types without named records and variants. */
  predicate RecordFree(t: Ty)
    decreases t, 1
  {
    match t
    case Alias(u) => RecordFree(u)
    case Borrow(u) => RecordFree(u)
    case Opt(u) => RecordFree(u)
    case Res(ok, err) => RecordFreeOpt(ok) && RecordFreeOpt(err)
    case Tuple(ts) => forall u | u in ts :: RecordFree(u)
    case Record(_, _) => false
    case Variant(_, _) => false
    case _ => true
  }

  predicate RecordFreeOpt(t: Option<Ty>)
    decreases t, 0
  {
    t.Some? ==> RecordFree(t.value)
  }

  lemma {:induction false} RecordFreeApart(t: Ty)
    requires RecordFree(t)
    ensures MembersApart(t)
    decreases t, 1
  {
    match t
    case Alias(u) => RecordFreeApart(u);
    case Borrow(u) => RecordFreeApart(u);
    case Opt(u) => RecordFreeApart(u);
    case Res(ok, err) =>
      RecordFreeApartOpt(ok);
      RecordFreeApartOpt(err);
    case Tuple(ts) =>
      forall u | u in ts ensures MembersApart(u) {
        RecordFreeApart(u);
      }
    case _ =>
  }

  lemma {:induction false} RecordFreeApartOpt(t: Option<Ty>)
    requires RecordFreeOpt(t)
    ensures MembersApartOpt(t)
    decreases t, 0
  {
    if t.Some? {
      RecordFreeApart(t.value);
    }
  }

  /** Without named records and variants, only an option directly inside an option repeats a member. */
  lemma NestedOptionsOnly(t: Ty, name: string)
    requires RecordFree(t)
    ensures Distinct(Declared(t, name)) <==> NoNestedOption(t)
  {
    DeclaredOnce(t, name);
    RecordFreeApart(t);
  }

  /** A payload's members are its case name or paths below it. */
  lemma {:induction false} PayloadBelow(p: Option<Ty>, name: string, m: string)
    requires m in DeclaredPayload(p, name)
    ensures StartsWith(m, name) && (m == name || m[|name|] == '.')
    decreases p, 1
  {
    if IsWrappedPayload(p.value) {
      BelowDot(name, Declared(p.value, "v"), m);
    } else {
      BareBelow(p.value, name, m);
    }
  }

  lemma BelowDot(name: string, inner: seq<string>, m: string)
    requires m in Prefixed(name + ".", inner)
    ensures StartsWith(m, name) && m != name && m[|name|] == '.'
  {
    PrefixedIn(name + ".", inner, m);
    assert m[..|name + "."|][..|name|] == name && m[|name|] == (name + ".")[|name|];
  }

  lemma {:induction false} BareBelow(t: Ty, name: string, m: string)
    requires !IsWrappedPayload(t) && m in DeclaredBare(t, name)
    ensures StartsWith(m, name) && (m == name || m[|name|] == '.')
  {
    match t
    case Alias(u) => BareBelow(u, name, m);
    case Borrow(u) => BareBelow(u, name, m);
    case Record(names, ts) => BelowDot(name, DeclaredAll(ts, MemberPaths("", names, |ts|)), m);
    case Variant(names, ps) => BelowDot(name, ["case_tag"] + DeclaredCases(ps, names), m);
    case _ =>
  }

  /** Cases with names of their own keep apart. */
  lemma NamedCasesApart(ps: seq<Option<Ty>>, names: seq<string>)
    requires CleanNames(names, |ps|) && Distinct(names)
    ensures CasesApart(ps, names)
  {
    forall i, j | 0 <= i < j < |ps|
      ensures Apart(DeclaredPayload(ps[i], NameAt(names, i)), DeclaredPayload(ps[j], NameAt(names, j)))
    {
      forall m | m in DeclaredPayload(ps[i], names[i]) ensures m !in DeclaredPayload(ps[j], names[j]) {
        PayloadBelow(ps[i], names[i], m);
        if m in DeclaredPayload(ps[j], names[j]) {
          PayloadBelow(ps[j], names[j], m);
          CleanNamesMeet(names[i], names[j], m);
        }
      }
    }
  }

  lemma CleanNamesMeet(a: string, b: string, m: string)
    requires Clean(a) && Clean(b) && StartsWith(m, a) && StartsWith(m, b)
    requires (m == a || m[|a|] == '.') && (m == b || m[|b|] == '.')
    ensures a == b
  {
    assert forall k :: 0 <= k < |a| ==> a[k] == m[..|a|][k] == m[k];
    assert forall k :: 0 <= k < |b| ==> b[k] == m[..|b|][k] == m[k];
    assert |a| == |b|;
  }

  // ---- Fields that keep apart by their names ----

  /** What a name may still need to become a member: the start of a suffix, a path, or nothing. */
  predicate OpenTail(s: string) {
    s == "_" || Tail(s)
  }

  predicate Continues(x: string, y: string) {
    StartsWith(x, y) && OpenTail(x[|y|..])
  }

  /** No marker makes one of the two field names the start of a member of the other. */
  predicate NamesKeepApart(a: string, b: string) {
    forall p, q | p in ["", "has_", "is_"] && q in ["", "has_", "is_"] ::
      !Continues(p + a, q + b) && !Continues(q + b, p + a)
  }

  /** Of two names that both start a member, the longer one continues the other. */
  lemma MarkedTwice(m: string, x: string, y: string)
    requires StartsWith(m, x) && Tail(m[|x|..]) && StartsWith(m, y) && |x| <= |y|
    ensures Continues(y, x)
  {
    assert y[..|x|] == m[..|y|][..|x|] == x;
    var rest, tail := y[|x|..], m[|x|..];
    assert forall k :: 0 <= k < |rest| ==> rest[k] == m[..|y|][|x| + k] == tail[k];
    assert |rest| == 1 ==> rest == [rest[0]];
  }

  lemma MarkedOnce(m: string, p: string, a: string, q: string, b: string)
    requires Marked(m, p, a) && !Continues(p + a, q + b) && !Continues(q + b, p + a)
    ensures !Marked(m, q, b)
  {
    if Marked(m, q, b) {
      var x, y := p + a, q + b;
      if |x| <= |y| {
        MarkedTwice(m, x, y);
      } else {
        MarkedTwice(m, y, x);
      }
      assert false;
    }
  }

  lemma BelongsToOne(m: string, a: string, b: string)
    requires NamesKeepApart(a, b) && Belongs(m, a)
    ensures !Belongs(m, b)
  {
    forall p, q | p in ["", "has_", "is_"] && q in ["", "has_", "is_"] && Marked(m, p, a) ensures !Marked(m, q, b) {
      MarkedOnce(m, p, a, q, b);
    }
  }

  /** Fields whose names keep apart declare no member in common, whatever their types. */
  lemma NamedFieldsApart(ts: seq<Ty>, names: seq<string>)
    requires |ts| == |names| && forall i, j :: 0 <= i < j < |names| ==> NamesKeepApart(names[i], names[j])
    ensures FieldsApart(ts, names)
  {
    forall i, j | 0 <= i < j < |ts| ensures Apart(Declared(ts[i], names[i]), Declared(ts[j], names[j])) {
      forall m | m in Declared(ts[i], names[i]) ensures m !in Declared(ts[j], names[j]) {
        DeclaredBelong(ts[i], names[i], m);
        BelongsToOne(m, names[i], names[j]);
        if m in Declared(ts[j], names[j]) {
          DeclaredBelong(ts[j], names[j], m);
        }
      }
    }
  }

  /** A text `a` beside a number `a_len`: the member `a_len` is declared twice. */
  lemma LengthFieldDeclaresTwice(name: string)
    ensures !Distinct(Declared(Record(["a", "a_len"], [Text, Scalar(U32)]), name))
    ensures !NamesKeepApart("a", "a_len")
  {
    var t := Record(["a", "a_len"], [Text, Scalar(U32)]);
    var fields := MemberPaths("", t.fieldNames, 2);
    assert fields[0] == "" + "a" == "a" && fields[1] == "" + "a_len" == "a_len";
    var a, b := Declared(t.fields[0], fields[0]), Declared(t.fields[1], fields[1]);
    assert a[1] == "a" + "_len" == "a_len" == b[0];
    assert a[1] in a && a[1] in b && !Apart(a, b);
    DeclaredOnce(t, name);
    assert Continues("" + "a_len", "" + "a");
  }
}
