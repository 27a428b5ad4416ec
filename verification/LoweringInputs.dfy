/** Single-function inputs on which a command payload does not lead to its request record. */
module LoweringInputs {
  import opened Wrappers
  import opened Symbols
  import opened Lookups
  import opened Naming
  import opened Lowering

  const NO_OTHERS := Others([], [], [], [])

  /** `name: func(x: ..)` of an interface in a package `p`. */
  function Named(name: string, interface: string): Func {
    Func(name, "p", interface, "", interface, Free, OwnedByInterface, [Field("x", Source(0))], None)
  }

  // ---- A function alone in its surface ----

  lemma NamesAlone(p: Problem)
    requires |p.subjects| == 1 && !p.Taken([0], 0)
    ensures Names(p) == Some([Candidate(p.kind, p.subjects[0], 0)])
  {
    assert Zeros(1) == [0];
    assert p.Settled([0]);
    assert NamesAt(p, [0]) == [Candidate(p.kind, p.subjects[0], 0)];
  }

  /** It keeps its first candidate names, if the request name is not taken. */
  lemma PlanAlone(types: Types, f: Func, taken: string -> bool)
    requires NeedsRequest(types, f) ==> !taken(RequestCandidate(SubjectOf(types, f), 0))
    ensures var s := SubjectOf(types, f);
            PlanGroup(types, [f], taken) ==
            Some(Plan([CommandCandidate(s, 0)], [ReplyCandidate(s, 0)], [Candidate(Request, s, 0)]))
  {
    var ss := Subjects(types, [f]);
    assert ss == [SubjectOf(types, f)];
    NamesAlone(Problem(Command, ss, taken));
    NamesAlone(Problem(Reply, ss, taken));
    NamesAlone(Problem(Request, ss, taken));
  }

  function AlonePlan(types: Types, f: Func): (plan: Plan)
    ensures |plan.commands| == |plan.replies| == |plan.requests| == 1
  {
    Plan([f.name], [ReplyCandidate(SubjectOf(types, f), 0)], [f.name])
  }

  function AloneRecords(f: Func, records: seq<Record>): seq<Record> {
    records + [RequestRecord(f, f.interface, f.name)]
  }

  lemma LoweredAlone(types: Types, f: Func, others: Others, t: Tables)
    requires f.interface != "" && f.ownerKind == OwnedByInterface && f.name != "" && NeedsRequest(types, f)
    requires !Declares(others, t.records, t.variants, f.name)
    requires var command := CommandVariant(types, [f], f.interface, AlonePlan(types, f));
             && !Declares(others, AloneRecords(f, t.records), t.variants, f.interface + "-command")
             && !Declares(others, AloneRecords(f, t.records), t.variants + [command], f.interface + "-reply")
    ensures AfterGroup(types, [f], others, t, f.interface) ==
            Some(Tables(AloneRecords(f, t.records),
                        t.variants + [CommandVariant(types, [f], f.interface, AlonePlan(types, f)),
                                      ReplyVariant([f], f.interface, AlonePlan(types, f))]))
  {
    SurfaceAlone(types, f);
    InterfacePlan(types, f, TakenNames(others, t.records, t.variants));
    RequestsAlone(types, f);
    AfterPlanned(types, [f], others, t, f.interface, [f], AlonePlan(types, f));
  }

  lemma InterfacePlan(types: Types, f: Func, taken: string -> bool)
    requires f.ownerKind == OwnedByInterface && NeedsRequest(types, f) && !taken(f.name)
    ensures PlanGroup(types, [f], taken) == Some(AlonePlan(types, f))
  {
    PlanAlone(types, f, taken);
  }

  lemma SurfaceAlone(types: Types, f: Func)
    requires f.interface != ""
    ensures InSurface(types, [f], f.interface) == [f]
  {
    assert [f][..0] == [] && InSurface(types, [], f.interface) == [];
  }

  lemma RequestsAlone(types: Types, f: Func)
    requires NeedsRequest(types, f)
    ensures Requests(types, [f], f.interface, AlonePlan(types, f).requests, 1) ==
              [RequestRecord(f, f.interface, f.name)]
  {
    assert Requests(types, [f], f.interface, AlonePlan(types, f).requests, 0) == [];
  }

  // ---- Its two variants ----

  lemma {:induction false} NoneNamed(decls: seq<Decl>, name: string)
    requires forall i :: 0 <= i < |decls| ==> decls[i].name != name && decls[i].symbol != name
    ensures !Finds(decls, name) && LocalCount(decls, name) == 0
  {
    if decls != [] {
      NoneNamed(decls[1..], name);
    }
  }

  lemma TwoVariantDecls(v: Variant, w: Variant)
    ensures VariantDecls([]) == [] && VariantDecls([v]) == [v.decl] && VariantDecls([v, w]) == [v.decl, w.decl]
  {
    assert [v][..0] == [] && [v, w][..1] == [v];
  }

  /** No record has this name or symbol. */
  predicate Avoid(records: seq<Record>, name: string) {
    forall i :: 0 <= i < |records| ==> records[i].decl.name != name && records[i].decl.symbol != name
  }

  lemma AvoidFree(records: seq<Record>, name: string)
    requires Avoid(records, name)
    ensures !Declares(NO_OTHERS, records, [], name)
  {
    RecordDeclsAt(records);
    NoneNamed(RecordDecls(records), name);
  }

  lemma SuffixesDiffer(interface: string)
    requires IsIdent(interface)
    ensures interface + "-command" != interface + "-reply"
    ensures IsIdent(interface + "-command") && IsIdent(interface + "-reply")
  {
    assert |interface + "-command"| != |interface + "-reply"|;
    assert IsIdent("-command") && IsIdent("-reply");
  }

  /** The variants of a group have scoped symbols. */
  lemma VariantSymbols(types: Types, f: Func, plan: Plan)
    requires |plan.commands| == |plan.replies| == |plan.requests| == 1 && f.interface != ""
    ensures !IsIdent(CommandVariant(types, [f], f.interface, plan).decl.symbol)
    ensures !IsIdent(ReplyVariant([f], f.interface, plan).decl.symbol)
  {
    ScopedHasColon(f.package, f.interface, f.interface + "-command");
    ScopedHasColon(f.package, f.interface, f.interface + "-reply");
  }

  lemma VariantsAlone(types: Types, f: Func, records: seq<Record>, plan: Plan)
    requires |plan.commands| == |plan.replies| == |plan.requests| == 1 && f.interface != "" && IsIdent(f.interface)
    requires Avoid(records, f.interface + "-command") && Avoid(records, f.interface + "-reply")
    ensures !Declares(NO_OTHERS, records, [], f.interface + "-command")
    ensures !Declares(NO_OTHERS, records, [CommandVariant(types, [f], f.interface, plan)], f.interface + "-reply")
  {
    var command := CommandVariant(types, [f], f.interface, plan);
    AvoidFree(records, f.interface + "-command");
    AvoidFree(records, f.interface + "-reply");
    TwoVariantDecls(command, command);
    SuffixesDiffer(f.interface);
    VariantSymbols(types, f, plan);
    NoneNamed([command.decl], f.interface + "-reply");
  }

  /** Lowering a function on its own, over records that leave the names it needs alone. */
  lemma NamedAlone(types: Types, f: Func, records: seq<Record>)
    requires f == Named(f.name, f.interface) && f.name != "" && IsIdent(f.name) && !types.isRecord(Source(0))
    requires f.interface != "" && IsIdent(f.interface)
    requires f.name != f.interface + "-command" && f.name != f.interface + "-reply"
    requires !Declares(NO_OTHERS, records, [], f.name)
    requires Avoid(records, f.interface + "-command") && Avoid(records, f.interface + "-reply")
    ensures AfterGroup(types, [f], NO_OTHERS, Tables(records, []), f.interface) ==
            Some(Tables(AloneRecords(f, records),
                        [CommandVariant(types, [f], f.interface, AlonePlan(types, f)),
                         ReplyVariant([f], f.interface, AlonePlan(types, f))]))
  {
    SuffixesDiffer(f.interface);
    AvoidAlone(f, records, f.interface + "-command");
    AvoidAlone(f, records, f.interface + "-reply");
    VariantsAlone(types, f, AloneRecords(f, records), AlonePlan(types, f));
    LoweredAlone(types, f, NO_OTHERS, Tables(records, []));
    PairBehindNothing(CommandVariant(types, [f], f.interface, AlonePlan(types, f)),
                      ReplyVariant([f], f.interface, AlonePlan(types, f)));
  }

  lemma PairBehindNothing(v: Variant, w: Variant)
    ensures [] + [v] == [v] && [] + [v, w] == [v, w]
  {
  }

  lemma AvoidAlone(f: Func, records: seq<Record>, name: string)
    requires Avoid(records, name) && f.name != name && f.name != "" && f.interface != "" && IsIdent(name)
    ensures Avoid(AloneRecords(f, records), name)
  {
    ScopedHasColon(f.package, f.interface, f.name);
  }

  lemma CasesAlone(types: Types, f: Func)
    requires NeedsRequest(types, f)
    ensures CommandVariant(types, [f], f.interface, AlonePlan(types, f)).cases ==
              [CaseDecl(f.name, Some(Symbol(f.name)))]
  {
  }

  // ---- A shared name ----

  lemma SharedByTwo(r1: Record, r2: Record, name: string)
    requires r1.decl.name == name && r2.decl.name == name && r1.decl.symbol != name && r2.decl.symbol != name
    ensures LocalCount(RecordDecls([r1, r2]), name) == 2 && !HasSymbol(RecordDecls([r1, r2]), name)
  {
    assert [r1, r2] == [r1] + [r2] && [r1] == [] + [r1];
    RecordDeclsSnoc([], r1);
    RecordDeclsSnoc([r1], r2);
    CountSnoc([], r1.decl, name);
    CountSnoc(RecordDecls([r1]), r2.decl, name);
  }

  lemma NowFindsNone(t: Tables, shared: seq<Record>, r: Record, name: string)
    requires t.records == shared + [r] && LocalCount(RecordDecls(shared), name) == 2
    requires !HasSymbol(RecordDecls(shared), name) && r.decl.symbol != name && !IsBuiltin(name) && IsIdent(name)
    requires |t.variants| == 2 && t.variants[0].decl.name != name && t.variants[1].decl.name != name
    requires !IsIdent(t.variants[0].decl.symbol) && !IsIdent(t.variants[1].decl.symbol)
    ensures PayloadTarget(NO_OTHERS, t, name) == Unsupported
  {
    RecordDeclsSnoc(shared, r);
    CountSnoc(RecordDecls(shared), r.decl, name);
    TwoVariantDecls(t.variants[0], t.variants[1]);
    assert t.variants == [t.variants[0], t.variants[1]];
    NoneNamed(VariantDecls(t.variants), name);
  }

  /** Two records share a function's name, so no lookup sees it and a third one is appended under it; then the
      payload leads nowhere. */
  lemma SharedLeadsNowhere(types: Types, f: Func, r1: Record, r2: Record)
    requires f == Named(f.name, f.interface) && f.name != "" && IsIdent(f.name) && !types.isRecord(Source(0))
    requires f.interface != "" && IsIdent(f.interface) && !IsBuiltin(f.name)
    requires f.name != f.interface + "-command" && f.name != f.interface + "-reply"
    requires r1.decl.name == r2.decl.name == f.name && !IsIdent(r1.decl.symbol) && !IsIdent(r2.decl.symbol)
    ensures var after := AfterGroup(types, [f], NO_OTHERS, Tables([r1, r2], []), f.interface);
            && after.Some? && |after.value.records| == 3 && |after.value.variants| == 2
            && after.value.variants[0].cases == [CaseDecl(f.name, Some(Symbol(f.name)))]
            && PayloadTarget(NO_OTHERS, after.value, f.name) == Unsupported
  {
    SharedByTwo(r1, r2, f.name);
    SuffixesDiffer(f.interface);
    NamedAlone(types, f, [r1, r2]);
    SharedLookup(types, f, r1, r2);
    CasesAlone(types, f);
  }

  lemma SharedLookup(types: Types, f: Func, r1: Record, r2: Record)
    requires f.interface != "" && f.name != "" && IsIdent(f.name) && !IsBuiltin(f.name)
    requires f.name != f.interface + "-command" && f.name != f.interface + "-reply"
    requires r1.decl.name == r2.decl.name == f.name && !IsIdent(r1.decl.symbol) && !IsIdent(r2.decl.symbol)
    ensures var plan := AlonePlan(types, f);
            var variants := [CommandVariant(types, [f], f.interface, plan), ReplyVariant([f], f.interface, plan)];
            PayloadTarget(NO_OTHERS, Tables(AloneRecords(f, [r1, r2]), variants), f.name) == Unsupported
  {
    var t := Tables(AloneRecords(f, [r1, r2]), [CommandVariant(types, [f], f.interface, AlonePlan(types, f)),
                                                ReplyVariant([f], f.interface, AlonePlan(types, f))]);
    ScopedHasColon(f.package, f.interface, f.name);
    SharedByTwo(r1, r2, f.name);
    VariantSymbols(types, f, AlonePlan(types, f));
    NowFindsNone(t, [r1, r2], RequestRecord(f, f.interface, f.name), f.name);
  }

  /** Interfaces `a` and `b` each declare a record `open`, and interface `c` a function of that name. */
  lemma SharedNameLeadsNowhere(types: Types, f: Func, r1: Record, r2: Record)
    requires f == Named("open", "c") && !types.isRecord(Source(0))
    requires r1.decl == Decl("open", ScopedSymbol("p", "a", "open"))
    requires r2.decl == Decl("open", ScopedSymbol("p", "b", "open"))
    ensures var after := AfterGroup(types, [f], NO_OTHERS, Tables([r1, r2], []), "c");
            && after.Some? && |after.value.records| == 3 && |after.value.variants| == 2
            && after.value.variants[0].cases == [CaseDecl("open", Some(Symbol("open")))]
            && PayloadTarget(NO_OTHERS, after.value, "open") == Unsupported
  {
    ScopedHasColon("p", "a", "open");
    ScopedHasColon("p", "b", "open");
    assert IsIdent("open") && IsIdent("c") && |"open"| != |"c" + "-command"| && |"open"| != |"c" + "-reply"|;
    SharedLeadsNowhere(types, f, r1, r2);
  }

  // ---- A builtin name ----

  /** A function called `string` gets a request record of that name, and its payload is the builtin type. */
  lemma BuiltinNameLeadsElsewhere(types: Types, f: Func)
    requires f == Named("string", "c") && !types.isRecord(Source(0))
    ensures var after := AfterGroup(types, [f], NO_OTHERS, Tables([], []), "c");
            && after.Some? && |after.value.records| == 1 && after.value.records[0].decl.name == "string"
            && |after.value.variants| == 2
            && after.value.variants[0].cases == [CaseDecl("string", Some(Symbol("string")))]
            && PayloadTarget(NO_OTHERS, after.value, "string") == ToBuiltin
  {
    assert IsIdent("string") && IsIdent("c") && |"string"| != |"c" + "-command"| && |"string"| != |"c" + "-reply"|;
    AloneOverNothing(types, f);
  }

  lemma AloneOverNothing(types: Types, f: Func)
    requires f == Named(f.name, f.interface) && f.name != "" && IsIdent(f.name) && !types.isRecord(Source(0))
    requires f.interface != "" && IsIdent(f.interface) && IsBuiltin(f.name)
    requires f.name != f.interface + "-command" && f.name != f.interface + "-reply"
    ensures var after := AfterGroup(types, [f], NO_OTHERS, Tables([], []), f.interface);
            && after.Some? && |after.value.records| == 1 && after.value.records[0].decl.name == f.name
            && |after.value.variants| == 2
            && after.value.variants[0].cases == [CaseDecl(f.name, Some(Symbol(f.name)))]
            && PayloadTarget(NO_OTHERS, after.value, f.name) == ToBuiltin
  {
    NamedAlone(types, f, []);
    CasesAlone(types, f);
  }
}
