/** Declared types and the lookups that find them by symbol or by local name. */
module Lookups {
  import opened Wrappers
  import opened Symbols

  /** A type expression: a name made during lowering, or an expression from the source. */
  datatype TypeRef = Symbol(symbol: string) | Source(index: nat)

  datatype Field = Field(name: string, ty: TypeRef)

  datatype Decl = Decl(name: string, symbol: string)

  datatype Record = Record(decl: Decl, package: string, interface: string, fields: seq<Field>)

  datatype CaseDecl = CaseDecl(name: string, payload: Option<TypeRef>)

  datatype Variant = Variant(decl: Decl, package: string, interface: string, cases: seq<CaseDecl>)

  /** The declarations lowering never adds to. */
  datatype Others = Others(enums: seq<Decl>, flags: seq<Decl>, aliases: seq<Decl>, resources: seq<Decl>)

  datatype Tables = Tables(records: seq<Record>, variants: seq<Variant>)

  // ---- Finding a declaration ----

  function LocalCount(decls: seq<Decl>, name: string): nat {
    if decls == [] then 0 else (if decls[0].name == name then 1 else 0) + LocalCount(decls[1..], name)
  }

  predicate HasSymbol(decls: seq<Decl>, name: string) {
    exists i | 0 <= i < |decls| :: decls[i].symbol != "" && decls[i].symbol == name
  }

  /** A lookup finds a declaration by symbol, or else by a local name that is not shared. */
  predicate Finds(decls: seq<Decl>, name: string) {
    HasSymbol(decls, name) || LocalCount(decls, name) == 1
  }

  /** The declaration a lookup returns: the first with the symbol, or the only one with the name. */
  function Find(decls: seq<Decl>, name: string): (r: Option<nat>)
    ensures r.Some? <==> Finds(decls, name)
    ensures r.Some? ==> r.value < |decls|
  {
    if HasSymbol(decls, name) then Some(FirstSymbol(decls, name))
    else if LocalCount(decls, name) == 1 then Some(FirstLocal(decls, name))
    else None
  }

  function FirstSymbol(decls: seq<Decl>, name: string): (i: nat)
    requires HasSymbol(decls, name)
    ensures i < |decls| && decls[i].symbol == name
    ensures forall j :: 0 <= j < i ==> decls[j].symbol == "" || decls[j].symbol != name
  {
    HasSymbolBehind(decls, name);
    if decls[0].symbol != "" && decls[0].symbol == name then 0 else 1 + FirstSymbol(decls[1..], name)
  }

  lemma HasSymbolBehind(decls: seq<Decl>, name: string)
    requires HasSymbol(decls, name)
    ensures decls != [] && (decls[0].symbol == name || HasSymbol(decls[1..], name))
  {
    var k :| 0 <= k < |decls| && decls[k].symbol != "" && decls[k].symbol == name;
    assert k > 0 ==> decls[1..][k - 1] == decls[k];
  }

  function FirstLocal(decls: seq<Decl>, name: string): (i: nat)
    requires LocalCount(decls, name) > 0
    ensures i < |decls| && decls[i].name == name
  {
    if decls[0].name == name then 0 else 1 + FirstLocal(decls[1..], name)
  }

  lemma {:induction false} LocalCountConcat(a: seq<Decl>, b: seq<Decl>, name: string)
    ensures LocalCount(a + b, name) == LocalCount(a, name) + LocalCount(b, name)
  {
    if a == [] {
      assert a + b == b;
    } else {
      LocalCountConcat(a[1..], b, name);
      assert (a + b)[1..] == a[1..] + b;
    }
  }

  /** A new declaration brings only its own names into scope. */
  lemma FindsAppend(decls: seq<Decl>, d: Decl, name: string)
    requires Finds(decls + [d], name) && d.name != name && d.symbol != name
    ensures Finds(decls, name)
  {
    LocalCountConcat(decls, [d], name);
    assert [d][1..] == [];
    if HasSymbol(decls + [d], name) {
      var i :| 0 <= i < |decls + [d]| && (decls + [d])[i].symbol != "" && (decls + [d])[i].symbol == name;
      assert decls[i].symbol == name;
    }
  }

  /** Identifiers never contain a colon, so only unscoped symbols look like names. */
  predicate IsIdent(name: string) {
    ':' !in name
  }

  lemma ScopedHasColon(package: string, interface: string, name: string)
    requires interface != "" && name != ""
    ensures ':' in ScopedSymbol(package, interface, name)
  {
    var k := if package != "" then |package| + 1 + |interface| else |interface|;
    assert ScopedSymbol(package, interface, name)[k] == ':';
  }

  lemma UnscopedIsName(package: string, interface: string, name: string, other: string)
    requires IsIdent(other) && other != "" && ScopedSymbol(package, interface, name) == other
    ensures name == other
  {
    if interface != "" && name != "" {
      ScopedHasColon(package, interface, name);
    }
  }

  // ---- Names that are taken ----

  function RecordDecls(records: seq<Record>): seq<Decl> {
    if records == [] then [] else RecordDecls(records[..|records| - 1]) + [records[|records| - 1].decl]
  }

  lemma {:induction false} RecordDeclsAt(records: seq<Record>)
    ensures |RecordDecls(records)| == |records|
    ensures forall i :: 0 <= i < |records| ==> RecordDecls(records)[i] == records[i].decl
  {
    if records != [] {
      RecordDeclsAt(records[..|records| - 1]);
    }
  }

  function VariantDecls(variants: seq<Variant>): seq<Decl> {
    if variants == [] then [] else VariantDecls(variants[..|variants| - 1]) + [variants[|variants| - 1].decl]
  }

  predicate FoundElsewhere(others: Others, name: string) {
    Finds(others.enums, name) || Finds(others.flags, name)
    || Finds(others.aliases, name) || Finds(others.resources, name)
  }

  /** Some declared type is found under `name`. */
  predicate Declares(others: Others, records: seq<Record>, variants: seq<Variant>, name: string) {
    Finds(RecordDecls(records), name) || Finds(VariantDecls(variants), name) || FoundElsewhere(others, name)
  }

  function TakenNames(others: Others, records: seq<Record>, variants: seq<Variant>): string -> bool {
    name => name != "" && Declares(others, records, variants, name)
  }

  // ---- What a payload stands for when it is emitted ----

  predicate IsBuiltin(name: string) {
    name in ["string", "bool", "s8", "u8", "s16", "u16", "s32", "u32", "s64", "u64", "f32", "f64"]
  }

  datatype Target = ToAlias(i: nat) | ToBuiltin | ToResource(i: nat) | ToRecord(i: nat) | ToVariant(i: nat)
                  | ToEnum(i: nat) | ToFlags(i: nat) | Unsupported

  /** The declaration a payload identifier leads to: an alias is followed first, then come the
      builtin types, resources, records and variants; an identifier that leads nowhere is fatal. */
  function PayloadTarget(others: Others, t: Tables, name: string): Target {
    if Finds(others.aliases, name) then ToAlias(Find(others.aliases, name).value)
    else if IsBuiltin(name) then ToBuiltin
    else if Finds(others.resources, name) then ToResource(Find(others.resources, name).value)
    else if Finds(RecordDecls(t.records), name) then ToRecord(Find(RecordDecls(t.records), name).value)
    else if Finds(VariantDecls(t.variants), name) then ToVariant(Find(VariantDecls(t.variants), name).value)
    else if Finds(others.enums, name) then ToEnum(Find(others.enums, name).value)
    else if Finds(others.flags, name) then ToFlags(Find(others.flags, name).value)
    else Unsupported
  }

  // ---- Records appended under names that no lookup finds ----

  /** Record `k` was added under an identifier that nothing was found under at that time. */
  predicate FreshAt(others: Others, records: seq<Record>, k: nat)
    requires k < |records|
  {
    var d := records[k].decl;
    && d.name != "" && IsIdent(d.name) && (d.symbol == d.name || !IsIdent(d.symbol))
    && !Finds(RecordDecls(records[..k]), d.name) && !FoundElsewhere(others, d.name)
  }

  predicate FreshFrom(others: Others, records: seq<Record>, base: nat) {
    base <= |records| && forall k: nat :: base <= k < |records| ==> FreshAt(others, records, k)
  }

  lemma FreshFromAppend(others: Others, records: seq<Record>, base: nat, r: Record)
    requires FreshFrom(others, records, base) && FreshAt(others, records + [r], |records|)
    ensures FreshFrom(others, records + [r], base)
  {
    var more := records + [r];
    forall k: nat | base <= k < |more| ensures FreshAt(others, more, k) {
      if k < |records| {
        assert FreshAt(others, records, k) && more[..k] == records[..k];
      }
    }
  }

  lemma FreshTogether(others: Others, records: seq<Record>, more: seq<Record>, base: nat)
    requires records <= more && FreshFrom(others, records, base) && FreshFrom(others, more, |records|)
    ensures FreshFrom(others, more, base)
  {
    forall k: nat | base <= k < |more| ensures FreshAt(others, more, k) {
      if k < |records| {
        assert FreshAt(others, records, k) && more[..k] == records[..k];
      }
    }
  }

  lemma RecordDeclsSnoc(records: seq<Record>, r: Record)
    ensures RecordDecls(records + [r]) == RecordDecls(records) + [r.decl]
  {
    assert (records + [r])[..|records|] == records;
  }

  lemma CountSnoc(decls: seq<Decl>, d: Decl, name: string)
    ensures LocalCount(decls + [d], name) == LocalCount(decls, name) + if d.name == name then 1 else 0
  {
    LocalCountConcat(decls, [d], name);
    assert [d][1..] == [];
  }

  /** How often a name is used by records: adding fresh ones never makes it shared. */
  lemma {:induction false} CountFresh(others: Others, records: seq<Record>, base: nat, n: nat, name: string)
    requires FreshFrom(others, records, base) && base <= n <= |records|
    ensures var before := LocalCount(RecordDecls(records[..base]), name);
            var now := LocalCount(RecordDecls(records[..n]), name);
            before <= now && (before < 2 ==> now < 2)
    decreases n
  {
    if n > base {
      CountFresh(others, records, base, n - 1, name);
      assert FreshAt(others, records, n - 1);
      assert records[..n] == records[..n - 1] + [records[n - 1]];
      RecordDeclsSnoc(records[..n - 1], records[n - 1]);
      CountSnoc(RecordDecls(records[..n - 1]), records[n - 1].decl, name);
    }
  }

  /** A name that is found stays found, under the same record. */
  lemma {:induction false} FoundStays(others: Others, records: seq<Record>, n: nat, m: nat, name: string)
    requires FreshFrom(others, records, n) && n <= m <= |records|
    requires IsIdent(name) && Finds(RecordDecls(records[..n]), name)
    ensures Find(RecordDecls(records[..m]), name) == Find(RecordDecls(records[..n]), name)
    decreases m
  {
    if m > n {
      FoundStays(others, records, n, m - 1, name);
      var r := records[m - 1];
      assert FreshAt(others, records, m - 1);
      assert records[..m] == records[..m - 1] + [r];
      RecordDeclsSnoc(records[..m - 1], r);
      StillFound(RecordDecls(records[..m - 1]), r.decl, name);
    }
  }

  lemma StillFound(decls: seq<Decl>, d: Decl, name: string)
    requires Finds(decls, name) && d.name != name && d.symbol != name
    ensures Find(decls + [d], name) == Find(decls, name)
  {
    CountSnoc(decls, d, name);
    var more := decls + [d];
    assert forall i :: 0 <= i < |decls| ==> more[i] == decls[i];
    if HasSymbol(decls, name) {
      var i := FirstSymbol(decls, name);
      assert more[i].symbol == name;
      var j := FirstSymbol(more, name);
      assert j <= i;
    } else {
      assert !HasSymbol(more, name);
      LocalIsOnly(decls, name, FirstLocal(decls, name));
      LocalIsOnly(more, name, FirstLocal(decls, name));
    }
  }

  lemma {:induction false} LocalIsOnly(decls: seq<Decl>, name: string, i: nat)
    requires LocalCount(decls, name) == 1 && i < |decls| && decls[i].name == name
    ensures FirstLocal(decls, name) == i
  {
    if decls[0].name != name {
      LocalIsOnly(decls[1..], name, i - 1);
    } else if i > 0 {
      LocalPositive(decls[1..], name, i - 1);
    }
  }

  lemma {:induction false} LocalPositive(decls: seq<Decl>, name: string, i: nat)
    requires i < |decls| && decls[i].name == name
    ensures LocalCount(decls, name) > 0
  {
    if i > 0 {
      LocalPositive(decls[1..], name, i - 1);
    }
  }

  // ---- When an appended record is found again ----

  /** No builtin type has the record's name and no two of the `declared` records share it. */
  predicate Usable(declared: seq<Record>, r: Record) {
    !IsBuiltin(r.decl.name) && (LocalCount(RecordDecls(declared), r.decl.name) < 2 || r.decl.symbol == r.decl.name)
  }

  lemma JustAppended(decls: seq<Decl>, d: Decl)
    requires !Finds(decls, d.name) && d.name != ""
    ensures d.symbol == d.name || LocalCount(decls, d.name) == 0 ==> Find(decls + [d], d.name) == Some(|decls|)
  {
    CountSnoc(decls, d, d.name);
    var more := decls + [d];
    assert forall i :: 0 <= i < |decls| ==> more[i] == decls[i];
    assert more[|decls|] == d;
    if d.symbol == d.name {
      var j := FirstSymbol(more, d.name);
      assert j == |decls|;
    } else if LocalCount(decls, d.name) == 0 {
      assert !HasSymbol(more, d.name);
      LocalIsOnly(more, d.name, |decls|);
    }
  }

  lemma FoundAtFirst(others: Others, records: seq<Record>, base: nat, i: nat, d: Decl)
    requires FreshFrom(others, records, base) && base <= i < |records| && d == records[i].decl
    requires d.symbol == d.name || LocalCount(RecordDecls(records[..base]), d.name) < 2
    ensures Find(RecordDecls(records[..i + 1]), d.name) == Some(i)
  {
    var before := RecordDecls(records[..i]);
    assert FreshAt(others, records, i);
    CountFresh(others, records, base, i, d.name);
    RecordDeclsAt(records[..i]);
    JustAppended(before, d);
    assert records[..i + 1] == records[..i] + [records[i]];
    RecordDeclsSnoc(records[..i], records[i]);
  }

  lemma FoundIfUnshared(others: Others, records: seq<Record>, base: nat, i: nat, d: Decl)
    requires FreshFrom(others, records, base) && base <= i < |records| && d == records[i].decl
    requires d.symbol == d.name || LocalCount(RecordDecls(records[..base]), d.name) < 2
    ensures Find(RecordDecls(records), d.name) == Some(i)
  {
    assert FreshAt(others, records, i);
    FoundAtFirst(others, records, base, i, d);
    FoundStays(others, records, i + 1, |records|, d.name);
    assert records[..|records|] == records;
  }

  lemma LostIfShared(others: Others, records: seq<Record>, base: nat, i: nat)
    requires FreshFrom(others, records, base) && base <= i < |records|
    requires var d := records[i].decl; d.symbol != d.name && LocalCount(RecordDecls(records[..base]), d.name) >= 2
    ensures Find(RecordDecls(records), records[i].decl.name) != Some(i)
  {
    CountFresh(others, records, base, |records|, records[i].decl.name);
    assert records[..|records|] == records;
    RecordDeclsAt(records);
  }

  /** Looking an appended record's name up in the end finds that record exactly when its symbol is the bare
      name or fewer than two of the records before shared it. */
  lemma FoundAgain(others: Others, records: seq<Record>, base: nat, i: nat)
    requires FreshFrom(others, records, base) && base <= i < |records|
    ensures var d := records[i].decl;
            Find(RecordDecls(records), d.name) == Some(i) <==>
            d.symbol == d.name || LocalCount(RecordDecls(records[..base]), d.name) < 2
  {
    var d := records[i].decl;
    if d.symbol == d.name || LocalCount(RecordDecls(records[..base]), d.name) < 2 {
      FoundIfUnshared(others, records, base, i, d);
    } else {
      LostIfShared(others, records, base, i);
    }
  }

  /** A payload naming an appended record leads to that record exactly when the record is usable. */
  lemma LeadsToOwnRecord(others: Others, t: Tables, base: nat, i: nat)
    requires FreshFrom(others, t.records, base) && base <= i < |t.records|
    ensures PayloadTarget(others, t, t.records[i].decl.name) == ToRecord(i) <==> Usable(t.records[..base], t.records[i])
  {
    assert FreshAt(others, t.records, i);
    FoundAgain(others, t.records, base, i);
  }
}
