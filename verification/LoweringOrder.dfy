/** Emission order of the lowered types: request records come before the commands that carry them. */
module LoweringOrder {
  import opened Wrappers
  import opened Lookups
  import opened Lowering
  import opened LoweringRequests
  import opened TopoSort

  // ---- The dependency graph over the final tables ----

  function EmittedName(d: Decl): string {
    if d.symbol != "" then d.symbol else d.name
  }

  function RecordNames(records: seq<Record>): (names: seq<string>)
    ensures |names| == |records|
  {
    seq(|records|, i requires 0 <= i < |records| => EmittedName(records[i].decl))
  }

  function VariantNames(variants: seq<Variant>): (names: seq<string>)
    ensures |names| == |variants|
  {
    seq(|variants|, i requires 0 <= i < |variants| => EmittedName(variants[i].decl))
  }

  function EmittedNames(t: Tables): seq<string> {
    RecordNames(t.records) + VariantNames(t.variants)
  }

  /** The record and variant names a type holds by value; `source` gives those of source types. */
  function Mentions(t: Tables, source: nat -> seq<string>, ty: TypeRef): seq<string> {
    match ty
    case Source(i) => source(i)
    case Symbol(s) => if Finds(RecordDecls(t.records), s) || Finds(VariantDecls(t.variants), s) then [s] else []
  }

  /** Names are collected once each. */
  function AddNew(names: seq<string>, more: seq<string>): seq<string>
    decreases |more|
  {
    if more == [] then names
    else AddNew(if more[0] in names then names else names + [more[0]], more[1..])
  }

  function Collect(t: Tables, source: nat -> seq<string>, types: seq<TypeRef>): seq<string> {
    if types == [] then []
    else AddNew(Collect(t, source, types[..|types| - 1]), Mentions(t, source, types[|types| - 1]))
  }

  function FieldTypes(r: Record): (types: seq<TypeRef>)
    ensures |types| == |r.fields|
  {
    seq(|r.fields|, i requires 0 <= i < |r.fields| => r.fields[i].ty)
  }

  function PayloadTypes(cases: seq<CaseDecl>): seq<TypeRef> {
    if cases == [] then []
    else
      var last := cases[|cases| - 1].payload;
      PayloadTypes(cases[..|cases| - 1]) + (if last.Some? then [last.value] else [])
  }

  function TypesAt(t: Tables, i: nat): seq<TypeRef>
    requires i < |t.records| + |t.variants|
  {
    if i < |t.records| then FieldTypes(t.records[i]) else PayloadTypes(t.variants[i - |t.records|].cases)
  }

  function GraphOf(t: Tables, source: nat -> seq<string>): Graph {
    var n := |t.records| + |t.variants|;
    Graph(EmittedNames(t), seq(n, i requires 0 <= i < n => Collect(t, source, TypesAt(t, i))))
  }

  lemma {:induction false} AddNewOnly(names: seq<string>, more: seq<string>, x: string)
    ensures x in AddNew(names, more) <==> x in names || x in more
    decreases |more|
  {
    if more != [] {
      AddNewOnly(if more[0] in names then names else names + [more[0]], more[1..], x);
    }
  }

  lemma {:induction false} CollectMentions(t: Tables, source: nat -> seq<string>, types: seq<TypeRef>, x: string)
    requires x in Collect(t, source, types)
    ensures exists ty :: ty in types && x in Mentions(t, source, ty)
  {
    var front, last := types[..|types| - 1], types[|types| - 1];
    AddNewOnly(Collect(t, source, front), Mentions(t, source, last), x);
    if x in Mentions(t, source, last) {
      assert last in types;
    } else {
      CollectMentions(t, source, front, x);
      var ty :| ty in front && x in Mentions(t, source, ty);
      assert ty in types;
    }
  }

  // ---- Where the types in front come from ----

  predicate AllSource(types: seq<TypeRef>) {
    forall ty :: ty in types ==> ty.Source?
  }

  /** Before lowering every type comes from the source, and so do all parameters. */
  predicate Parsed(start: Tables, funcs: seq<Func>) {
    && (forall i :: 0 <= i < |start.records| ==> AllSource(FieldTypes(start.records[i])))
    && (forall i :: 0 <= i < |start.variants| ==> AllSource(PayloadTypes(start.variants[i].cases)))
    && (forall f :: f in funcs ==> forall p :: p in f.params ==> p.ty.Source?)
  }

  /** Source types mention declared types only. */
  ghost predicate SourceKnown(start: Tables, source: nat -> seq<string>) {
    forall i, x :: x in source(i) ==> x in EmittedNames(start)
  }

  /** Source types mention declared types only, and a method's receiver is no lowered variant. */
  ghost predicate Closed(start: Tables, lowered: seq<Variant>, source: nat -> seq<string>, funcs: seq<Func>) {
    && SourceKnown(start, source)
    && (forall f :: f in funcs ==> Receiver(f) !in VariantNames(lowered))
  }

  function Receiver(f: Func): string {
    if f.ownerSymbol != "" then f.ownerSymbol else f.owner
  }

  predicate IsRequestOf(r: Record, funcs: seq<Func>) {
    exists f :: f in funcs && r.fields == RequestFields(f)
  }

  lemma {:induction false} RequestsAreOf(types: Types, fs: seq<Func>, surface: string, names: seq<string>, n: nat,
                                         r: Record)
    requires n <= |fs| == |names| && r in Requests(types, fs, surface, names, n)
    ensures IsRequestOf(r, fs)
  {
    if r in Requests(types, fs, surface, names, n - 1) {
      RequestsAreOf(types, fs, surface, names, n - 1, r);
    } else {
      assert r == RequestRecord(fs[n - 1], surface, names[n - 1]) && fs[n - 1] in fs;
    }
  }

  /** Lowering only appends, and every record it appends is a function's request. */
  lemma GroupAppends(types: Types, funcs: seq<Func>, others: Others, t: Tables, s: string)
    requires AfterGroup(types, funcs, others, t, s).Some?
    ensures var u := AfterGroup(types, funcs, others, t, s).value;
            && t.records <= u.records && t.variants <= u.variants
            && forall i :: |t.records| <= i < |u.records| ==> IsRequestOf(u.records[i], funcs)
  {
    var fs := InSurface(types, funcs, s);
    var u := AfterGroup(types, funcs, others, t, s).value;
    var plan := PlanGroup(types, fs, TakenNames(others, t.records, t.variants)).value;
    forall i | |t.records| <= i < |u.records| ensures IsRequestOf(u.records[i], funcs) {
      var r := u.records[i];
      assert r in Requests(types, fs, s, plan.requests, |fs|);
      RequestsAreOf(types, fs, s, plan.requests, |fs|, r);
      var f :| f in fs && r.fields == RequestFields(f);
      InSurfaceFrom(types, funcs, s, f);
    }
  }

  lemma {:induction false} GroupsAppend(types: Types, funcs: seq<Func>, others: Others, start: Tables,
                                        surfaces: seq<string>)
    requires AfterGroups(types, funcs, others, start, surfaces).Some?
    ensures var u := AfterGroups(types, funcs, others, start, surfaces).value;
            && start.records <= u.records && start.variants <= u.variants
            && forall i :: |start.records| <= i < |u.records| ==> IsRequestOf(u.records[i], funcs)
  {
    if surfaces != [] {
      var front := surfaces[..|surfaces| - 1];
      GroupsAppend(types, funcs, others, start, front);
      GroupAppends(types, funcs, others, AfterGroups(types, funcs, others, start, front).value,
                   surfaces[|surfaces| - 1]);
    }
  }

  // ---- Requests come first ----

  /** In front of the lowered variants stand source types and receivers only. */
  lemma TypeInFront(start: Tables, t: Tables, funcs: seq<Func>, i: nat, ty: TypeRef)
    requires start.records <= t.records && start.variants <= t.variants && Parsed(start, funcs)
    requires forall k :: |start.records| <= k < |t.records| ==> IsRequestOf(t.records[k], funcs)
    requires i < |t.records| + |start.variants| && ty in TypesAt(t, i)
    ensures ty.Source? || exists f :: f in funcs && ty == Symbol(Receiver(f))
  {
    if i < |start.records| {
      assert t.records[i] == start.records[i];
    } else if i < |t.records| {
      var f :| f in funcs && t.records[i].fields == RequestFields(f);
      var k :| 0 <= k < |t.records[i].fields| && t.records[i].fields[k].ty == ty;
      FieldOfRequest(f, k);
    } else {
      assert t.variants[i - |t.records|] == start.variants[i - |t.records|];
    }
  }

  lemma FrontMentions(start: Tables, t: Tables, source: nat -> seq<string>, funcs: seq<Func>, i: nat, x: string)
    requires start.records <= t.records && start.variants <= t.variants
    requires Parsed(start, funcs) && Closed(start, t.variants[|start.variants|..], source, funcs)
    requires forall k :: |start.records| <= k < |t.records| ==> IsRequestOf(t.records[k], funcs)
    requires i < |t.records| + |start.variants| && x in Collect(t, source, TypesAt(t, i))
    ensures x in EmittedNames(start) || x !in VariantNames(t.variants[|start.variants|..])
  {
    CollectMentions(t, source, TypesAt(t, i), x);
    var ty :| ty in TypesAt(t, i) && x in Mentions(t, source, ty);
    TypeInFront(start, t, funcs, i, ty);
  }

  lemma FieldOfRequest(f: Func, k: nat)
    requires k < |RequestFields(f)|
    ensures RequestFields(f)[k] in f.params || RequestFields(f)[k].ty == Symbol(Receiver(f))
  {
  }

  /** The records and the declared variants depend only on each other. */
  lemma FrontIsClosed(start: Tables, t: Tables, source: nat -> seq<string>, funcs: seq<Func>)
    requires start.records <= t.records && start.variants <= t.variants
    requires Parsed(start, funcs) && Closed(start, t.variants[|start.variants|..], source, funcs)
    requires forall k :: |start.records| <= k < |t.records| ==> IsRequestOf(t.records[k], funcs)
    requires GraphOf(t, source).Valid()
    ensures ClosedPrefix(GraphOf(t, source), |t.records| + |start.variants|)
  {
    var g, m := GraphOf(t, source), |t.records| + |start.variants|;
    var lowered := t.variants[|start.variants|..];
    forall i: nat, j: nat | i < m && g.Edge(i, j) ensures j < m {
      var x := g.names[j];
      FrontMentions(start, t, source, funcs, i, x);
      assert j >= m ==> VariantNames(lowered)[j - m] == x;
      if x in EmittedNames(start) {
        var at := PlaceInFront(start, t, x);
        assert g.names[at] == x;
      }
    }
  }

  lemma PlaceInFront(start: Tables, t: Tables, x: string) returns (at: nat)
    requires start.records <= t.records && start.variants <= t.variants && x in EmittedNames(start)
    ensures (at < |start.records| || |t.records| <= at < |t.records| + |start.variants|) && EmittedNames(t)[at] == x
  {
    var k :| 0 <= k < |EmittedNames(start)| && EmittedNames(start)[k] == x;
    at := if k < |start.records| then k else |t.records| + (k - |start.records|);
  }

  /** Every request record is emitted before every lowered variant, although a command names its request by
      the bare name and so the graph may have no edge between them. */
  lemma RequestsBeforeCommands(types: Types, funcs: seq<Func>, others: Others, start: Tables, surfaces: seq<string>,
                               source: nat -> seq<string>, a: nat, b: nat)
    requires AfterGroups(types, funcs, others, start, surfaces).Some?
    requires var t := AfterGroups(types, funcs, others, start, surfaces).value;
             && Parsed(start, funcs) && |start.variants| <= |t.variants|
             && Closed(start, t.variants[|start.variants|..], source, funcs)
             && GraphOf(t, source).Valid() && Order(GraphOf(t, source), []).Some?
             && var order := Order(GraphOf(t, source), []).value;
             && a < |order| && b < |order|
             && order[a] < |t.records| && order[b] >= |t.records| + |start.variants|
    ensures a < b
  {
    var t := AfterGroups(types, funcs, others, start, surfaces).value;
    GroupsAppend(types, funcs, others, start, surfaces);
    FrontIsClosed(start, t, source, funcs);
    ClosedPrefixFirst(GraphOf(t, source), |t.records| + |start.variants|);
  }

  // ---- The edge that is missing ----

  lemma {:induction false} MentionsCollected(t: Tables, source: nat -> seq<string>, types: seq<TypeRef>, ty: TypeRef,
                                             x: string)
    requires ty in types && x in Mentions(t, source, ty)
    ensures x in Collect(t, source, types)
  {
    var front, last := types[..|types| - 1], types[|types| - 1];
    AddNewOnly(Collect(t, source, front), Mentions(t, source, last), x);
    if ty != last {
      assert ty in front;
      MentionsCollected(t, source, front, ty, x);
    }
  }

  lemma {:induction false} PayloadTypesAre(cases: seq<CaseDecl>, ty: TypeRef)
    ensures ty in PayloadTypes(cases) <==> exists c :: 0 <= c < |cases| && cases[c].payload == Some(ty)
  {
    if cases != [] {
      var front := cases[..|cases| - 1];
      PayloadTypesAre(front, ty);
      assert forall c :: 0 <= c < |front| ==> front[c] == cases[c];
    }
  }

  /** A scoped symbol of a new record is mentioned by no lowered variant. */
  lemma ScopedIsNotMentioned(start: Tables, t: Tables, source: nat -> seq<string>, v: Variant, i: nat)
    requires start.records <= t.records && start.variants <= t.variants && |start.records| <= i < |t.records|
    requires SourceKnown(start, source) && GraphOf(t, source).Valid()
    requires LocalPayloads(v) && !IsIdent(t.records[i].decl.symbol)
    ensures t.records[i].decl.symbol !in Collect(t, source, PayloadTypes(v.cases))
  {
    var x := t.records[i].decl.symbol;
    if x in Collect(t, source, PayloadTypes(v.cases)) {
      CollectMentions(t, source, PayloadTypes(v.cases), x);
      var ty :| ty in PayloadTypes(v.cases) && x in Mentions(t, source, ty);
      PayloadTypesAre(v.cases, ty);
      if ty.Source? {
        NewIsNotOld(start, t, source, i);
      }
      assert false;
    }
  }

  /** Emitted names are unique, so a new record has no name that was there before. */
  lemma NewIsNotOld(start: Tables, t: Tables, source: nat -> seq<string>, i: nat)
    requires start.records <= t.records && start.variants <= t.variants && |start.records| <= i < |t.records|
    requires GraphOf(t, source).Valid()
    ensures EmittedName(t.records[i].decl) !in EmittedNames(start)
  {
    forall x | x in EmittedNames(start) ensures x != EmittedName(t.records[i].decl) {
      var at := PlaceInFront(start, t, x);
      assert GraphOf(t, source).names[at] == x;
      assert GraphOf(t, source).names[i] == EmittedName(t.records[i].decl);
    }
  }

  /** An unscoped record is found under its bare name, which is then an emitted name. */
  lemma UnscopedIsMentioned(t: Tables, source: nat -> seq<string>, v: Variant, c: nat, i: nat)
    requires i < |t.records| && c < |v.cases|
    requires var d := t.records[i].decl;
             d.name != "" && d.symbol == d.name && v.cases[c].payload == Some(Symbol(d.name))
    ensures t.records[i].decl.symbol in Collect(t, source, PayloadTypes(v.cases))
  {
    var d := t.records[i].decl;
    RecordDeclsAt(t.records);
    assert HasSymbol(RecordDecls(t.records), d.name);
    PayloadTypesAre(v.cases, Symbol(d.name));
    MentionsCollected(t, source, PayloadTypes(v.cases), Symbol(d.name), d.name);
  }

  /** In the final tables, the graph knows the edge from a command to the request record that its case names
      exactly when that record's symbol is the bare name. */
  lemma {:induction false} CommandEdgeExactly(
      types: Types, funcs: seq<Func>, others: Others, start: Tables, surfaces: seq<string>, t: Tables,
      source: nat -> seq<string>, f: Func, j: nat, c: nat, i: nat)
    requires AllValid(funcs) && AsParsed(funcs) && AfterGroups(types, funcs, others, start, surfaces) == Some(t)
    requires SourceKnown(start, source) && GraphOf(t, source).Valid() && CaseOf(start, t, f, j, c, i)
    ensures GraphOf(t, source).Edge(|t.records| + j, i) <==> t.records[i].decl.symbol == t.records[i].decl.name
  {
    GroupsExtend(types, funcs, others, start, surfaces);
    EdgeExactly(types, funcs, others, start, t, source, f, j, c, i);
  }

  lemma EdgeExactly(types: Types, funcs: seq<Func>, others: Others, start: Tables, t: Tables,
                    source: nat -> seq<string>, f: Func, j: nat, c: nat, i: nat)
    requires Extended(types, funcs, others, start, t) && AsParsed(funcs) && CaseOf(start, t, f, j, c, i)
    requires SourceKnown(start, source) && GraphOf(t, source).Valid()
    ensures GraphOf(t, source).Edge(|t.records| + j, i) <==> t.records[i].decl.symbol == t.records[i].decl.name
  {
    assert FreshAt(others, t.records, i);
    EdgeToRecord(t, source, j, i);
    if t.records[i].decl.symbol == t.records[i].decl.name {
      UnscopedIsMentioned(t, source, t.variants[j], c, i);
    } else {
      ScopedIsNotMentioned(start, t, source, t.variants[j], i);
    }
  }

  lemma EdgeToRecord(t: Tables, source: nat -> seq<string>, j: nat, i: nat)
    requires j < |t.variants| && i < |t.records|
    ensures GraphOf(t, source).Edge(|t.records| + j, i) <==>
            EmittedName(t.records[i].decl) in Collect(t, source, PayloadTypes(t.variants[j].cases))
  {
    var g := GraphOf(t, source);
    assert g.names[i] == EmittedName(t.records[i].decl);
    assert g.deps[|t.records| + j] == Collect(t, source, TypesAt(t, |t.records| + j));
  }

  /** So for every function in an interface the edge is missing, and only the closed front puts its request
      record first. */
  lemma {:induction false} ScopedRequestHasNoEdge(
      types: Types, funcs: seq<Func>, others: Others, start: Tables, surfaces: seq<string>, t: Tables,
      source: nat -> seq<string>, s: string, f: Func)
    returns (j: nat, c: nat, i: nat)
    requires AllValid(funcs) && AsParsed(funcs) && AfterGroups(types, funcs, others, start, surfaces) == Some(t)
    requires SourceKnown(start, source) && GraphOf(t, source).Valid()
    requires s in surfaces && f in InSurface(types, funcs, s) && NeedsRequest(types, f)
    ensures CaseOf(start, t, f, j, c, i)
    ensures GraphOf(t, source).Edge(|t.records| + j, i) <==> s == ""
  {
    j, c, i := CaseInGroups(types, funcs, others, start, surfaces, s, f);
    CommandEdgeExactly(types, funcs, others, start, surfaces, t, source, f, j, c, i);
    GroupsExtend(types, funcs, others, start, surfaces);
    assert FreshAt(others, t.records, i);
    if s != "" {
      ScopedHasColon(f.package, s, t.records[i].decl.name);
    }
  }
}
