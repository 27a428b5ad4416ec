/** Lowering of interface functions to command and reply variants with request records. */
module Lowering {
  import opened Wrappers
  import opened Sequences
  import opened Naming
  import opened Symbols
  import opened Lookups

  datatype Func = Func(
    name: string, package: string, owner: string, ownerSymbol: string, interface: string,
    kind: FuncKind, ownerKind: OwnerKind, params: seq<Field>, result: Option<TypeRef>)

  /** Facts about types that lowering looks up but never changes. */
  datatype Types = Types(
    shape: Option<TypeRef> -> string,          // a result type, resolved and printed
    isRecord: TypeRef -> bool,                 // whether it resolves to a record
    replyBase: Func -> string,                 // the reply case name derived from the result
    resourceInterface: string -> string)       // a resource's interface, by its symbol

  // ---- Names ----

  /** The interface a function surfaces in. */
  function Surface(types: Types, f: Func): string {
    if f.interface != "" then f.interface
    else
      var key := if f.ownerSymbol != "" then f.ownerSymbol else f.owner;
      if f.ownerKind == OwnedByResource && types.resourceInterface(key) != "" then types.resourceInterface(key)
      else f.owner
  }

  /** A record parameter that is the only one is passed as the payload itself. */
  predicate PassesRecord(types: Types, f: Func) {
    f.kind != Method && |f.params| == 1 && types.isRecord(f.params[0].ty)
  }

  predicate NeedsRequest(types: Types, f: Func) {
    (|f.params| > 0 || f.kind == Method) && !PassesRecord(types, f)
  }

  function SubjectOf(types: Types, f: Func): Subject {
    Subject(f.name, f.ownerKind, f.owner, f.interface, types.replyBase(f), types.shape(f.result),
            NeedsRequest(types, f))
  }

  function ReceiverName(f: Func): string {
    if f.name == "clone" then "source" else if f.owner != "" then f.owner else "self"
  }

  /** The receiver, for methods, then the parameters in order. */
  function RequestFields(f: Func): seq<Field> {
    (if f.kind == Method then [Field(ReceiverName(f), Symbol(if f.ownerSymbol != "" then f.ownerSymbol else f.owner))]
     else [])
    + f.params
  }

  function RequestRecord(f: Func, surface: string, name: string): Record {
    Record(Decl(name, ScopedSymbol(f.package, surface, name)), f.package, surface, RequestFields(f))
  }

  /** The payload of a function's command case. */
  function CommandPayload(types: Types, f: Func, requestName: string): Option<TypeRef> {
    if NeedsRequest(types, f) then Some(Symbol(requestName))
    else if PassesRecord(types, f) then Some(f.params[0].ty)
    else None
  }

  // ---- Functions as parsed ----

  ghost predicate ValidFunc(f: Func) {
    f.name != "" && IsIdent(f.name) && IsIdent(f.owner) && IsIdent(f.interface)
  }

  lemma RequestNameIsIdent(types: Types, f: Func, level: nat)
    requires ValidFunc(f)
    ensures RequestCandidate(SubjectOf(types, f), level) != "" && IsIdent(RequestCandidate(SubjectOf(types, f), level))
  {
  }

  // ---- What lowering a group yields ----

  function InSurface(types: Types, fs: seq<Func>, surface: string): seq<Func> {
    if fs == [] then []
    else
      var front := InSurface(types, fs[..|fs| - 1], surface);
      if Surface(types, fs[|fs| - 1]) == surface then front + [fs[|fs| - 1]] else front
  }

  function Subjects(types: Types, fs: seq<Func>): (ss: seq<Subject>)
    ensures |ss| == |fs| && forall i :: 0 <= i < |fs| ==> ss[i] == SubjectOf(types, fs[i])
  {
    seq(|fs|, i requires 0 <= i < |fs| => SubjectOf(types, fs[i]))
  }

  /** The request records of the first `n` functions. */
  function Requests(types: Types, fs: seq<Func>, surface: string, names: seq<string>, n: nat): seq<Record>
    requires n <= |fs| == |names|
  {
    if n == 0 then []
    else
      Requests(types, fs, surface, names, n - 1)
      + if NeedsRequest(types, fs[n - 1]) then [RequestRecord(fs[n - 1], surface, names[n - 1])] else []
  }

  function CommandCases(types: Types, fs: seq<Func>, names: seq<string>, requests: seq<string>, n: nat)
    : (cs: seq<CaseDecl>)
    requires n <= |fs| == |names| == |requests|
    ensures |cs| == n
    ensures forall k :: 0 <= k < n ==> cs[k] == CaseDecl(names[k], CommandPayload(types, fs[k], requests[k]))
  {
    seq(n, k requires 0 <= k < n => CaseDecl(names[k], CommandPayload(types, fs[k], requests[k])))
  }

  predicate HasCase(cs: seq<CaseDecl>, name: string) {
    exists c | 0 <= c < |cs| :: cs[c].name == name
  }

  /** One reply case per name; later functions share the case of the first. */
  function ReplyCases(fs: seq<Func>, names: seq<string>, n: nat): seq<CaseDecl>
    requires n <= |fs| == |names|
  {
    if n == 0 then []
    else
      var cs := ReplyCases(fs, names, n - 1);
      if HasCase(cs, names[n - 1]) then cs else cs + [CaseDecl(names[n - 1], fs[n - 1].result)]
  }

  predicate DistinctCases(cs: seq<CaseDecl>) {
    forall i, j :: 0 <= i < j < |cs| ==> cs[i].name != cs[j].name
  }

  /** The case called `name` carries a type of the same shape as `result`. */
  ghost predicate Answers(types: Types, cs: seq<CaseDecl>, name: string, result: Option<TypeRef>) {
    exists c :: 0 <= c < |cs| && cs[c].name == name && types.shape(cs[c].payload) == types.shape(result)
  }

  lemma AnswersGrow(types: Types, cs1: seq<CaseDecl>, cs2: seq<CaseDecl>, name: string, result: Option<TypeRef>)
    requires cs1 <= cs2 && Answers(types, cs1, name, result)
    ensures Answers(types, cs2, name, result)
  {
    var c :| 0 <= c < |cs1| && cs1[c].name == name && types.shape(cs1[c].payload) == types.shape(result);
    assert cs2[c] == cs1[c];
  }

  /** Every reply case is the first one under its name, with that function's result. */
  lemma {:induction false} ReplyOrigins(fs: seq<Func>, names: seq<string>, n: nat, c: nat) returns (k: nat)
    requires n <= |fs| == |names| && c < |ReplyCases(fs, names, n)|
    ensures k < n && ReplyCases(fs, names, n)[c] == CaseDecl(names[k], fs[k].result)
  {
    if c < |ReplyCases(fs, names, n - 1)| {
      k := ReplyOrigins(fs, names, n - 1, c);
    } else {
      k := n - 1;
    }
  }

  lemma {:induction false} RepliesDistinct(fs: seq<Func>, names: seq<string>, n: nat)
    requires n <= |fs| == |names|
    ensures DistinctCases(ReplyCases(fs, names, n))
  {
    if n > 0 {
      RepliesDistinct(fs, names, n - 1);
    }
  }

  /** Names under which results never differ in shape. */
  ghost predicate ShapesAgree(types: Types, fs: seq<Func>, names: seq<string>) {
    |fs| == |names| &&
    forall i, j :: 0 <= i < |fs| && 0 <= j < |fs| && i != j && names[i] == names[j] ==>
      types.shape(fs[i].result) == types.shape(fs[j].result)
  }

  lemma LastAnswered(types: Types, fs: seq<Func>, names: seq<string>, n: nat)
    requires 0 < n <= |fs| && ShapesAgree(types, fs, names)
    ensures Answers(types, ReplyCases(fs, names, n), names[n - 1], fs[n - 1].result)
  {
    var prev, cs := ReplyCases(fs, names, n - 1), ReplyCases(fs, names, n);
    if HasCase(prev, names[n - 1]) {
      var c: nat :| c < |prev| && prev[c].name == names[n - 1];
      var o := ReplyOrigins(fs, names, n - 1, c);
    } else {
      assert cs[|cs| - 1] == CaseDecl(names[n - 1], fs[n - 1].result);
    }
  }

  /** Names that never clash give every function one reply case, of its own result shape. */
  lemma {:induction false} RepliesAnswer(types: Types, fs: seq<Func>, names: seq<string>, n: nat, k: nat)
    requires k < n <= |fs| && ShapesAgree(types, fs, names)
    ensures Answers(types, ReplyCases(fs, names, n), names[k], fs[k].result)
    decreases n
  {
    if k == n - 1 {
      LastAnswered(types, fs, names, n);
    } else {
      RepliesAnswer(types, fs, names, n - 1, k);
      AnswersGrow(types, ReplyCases(fs, names, n - 1), ReplyCases(fs, names, n), names[k], fs[k].result);
    }
  }

  // ---- The plan of a group ----

  datatype Plan = Plan(commands: seq<string>, replies: seq<string>, requests: seq<string>)

  /** The names of a group's cases and request records. */
  function PlanGroup(types: Types, fs: seq<Func>, taken: string -> bool): (r: Option<Plan>)
    ensures r.Some? ==> |r.value.commands| == |r.value.replies| == |r.value.requests| == |fs|
  {
    var ss := Subjects(types, fs);
    var commands := Names(Problem(Command, ss, taken));
    var replies := Names(Problem(Reply, ss, taken));
    var requests := Names(Problem(Request, ss, taken));
    if commands.None? || replies.None? || requests.None? then None
    else Some(Plan(commands.value, replies.value, requests.value))
  }

  /** No two command cases share a name, shared reply names have one shape, and request
      records get fresh names. */
  ghost predicate GoodPlan(types: Types, fs: seq<Func>, taken: string -> bool, plan: Plan) {
    && |plan.commands| == |plan.replies| == |plan.requests| == |fs|
    && Distinct(plan.commands)
    && ShapesAgree(types, fs, plan.replies)
    && (forall i, j :: 0 <= i < j < |fs| && NeedsRequest(types, fs[i]) && NeedsRequest(types, fs[j]) ==>
          plan.requests[i] != plan.requests[j])
    && (forall i :: 0 <= i < |fs| && NeedsRequest(types, fs[i]) ==>
          !taken(plan.requests[i]) && plan.requests[i] != "" && IsIdent(plan.requests[i]))
  }

  lemma PlanIsGood(types: Types, fs: seq<Func>, taken: string -> bool)
    requires PlanGroup(types, fs, taken).Some? && forall i :: 0 <= i < |fs| ==> ValidFunc(fs[i])
    ensures GoodPlan(types, fs, taken, PlanGroup(types, fs, taken).value)
  {
    var ss := Subjects(types, fs);
    var request := Problem(Request, ss, taken);
    NamesDoNotConflict(Problem(Command, ss, taken));
    NamesDoNotConflict(Problem(Reply, ss, taken));
    NamesDoNotConflict(request);
    forall i | 0 <= i < |fs| && NeedsRequest(types, fs[i])
      ensures Names(request).value[i] != "" && IsIdent(Names(request).value[i])
    {
      var level := NameIsCandidate(request, i);
      RequestNameIsIdent(types, fs[i], level);
    }
  }

  lemma OtherRequest(others: Others, before: seq<Record>, variants: seq<Variant>, f: Func, surface: string,
                     own: string, name: string)
    requires name != "" && IsIdent(name) && own != name && !Declares(others, before, variants, name)
    ensures !Declares(others, before + [RequestRecord(f, surface, own)], variants, name)
  {
    var r := RequestRecord(f, surface, own);
    RecordDeclsSnoc(before, r);
    if r.decl.symbol == name {
      UnscopedIsName(f.package, surface, own, name);
    }
    if Finds(RecordDecls(before + [r]), name) {
      FindsAppend(RecordDecls(before), r.decl, name);
    }
  }

  /** The request records of a group do not take a name away. */
  lemma {:induction false} RequestsLeaveFree(
      types: Types, fs: seq<Func>, surface: string, others: Others, records: seq<Record>, variants: seq<Variant>,
      names: seq<string>, n: nat, name: string)
    requires n <= |fs| == |names| && name != "" && IsIdent(name) && !Declares(others, records, variants, name)
    requires forall k :: 0 <= k < n && NeedsRequest(types, fs[k]) ==> names[k] != name
    ensures !Declares(others, records + Requests(types, fs, surface, names, n), variants, name)
  {
    if n == 0 {
      assert records + Requests(types, fs, surface, names, 0) == records;
    } else {
      RequestsLeaveFree(types, fs, surface, others, records, variants, names, n - 1, name);
      var before := records + Requests(types, fs, surface, names, n - 1);
      if NeedsRequest(types, fs[n - 1]) {
        OtherRequest(others, before, variants, fs[n - 1], surface, names[n - 1], name);
        assert records + Requests(types, fs, surface, names, n) ==
               before + [RequestRecord(fs[n - 1], surface, names[n - 1])];
      } else {
        assert records + Requests(types, fs, surface, names, n) == before;
      }
    }
  }

  /** The next planned request name is still free when its turn comes. */
  lemma NextNameFree(types: Types, fs: seq<Func>, surface: string, others: Others, records: seq<Record>,
                     variants: seq<Variant>, plan: Plan, i: nat)
    requires GoodPlan(types, fs, TakenNames(others, records, variants), plan)
    requires i < |fs| && NeedsRequest(types, fs[i])
    ensures !Declares(others, records + Requests(types, fs, surface, plan.requests, i), variants, plan.requests[i])
  {
    RequestsLeaveFree(types, fs, surface, others, records, variants, plan.requests, i, plan.requests[i]);
  }

  lemma FreshRequest(others: Others, before: seq<Record>, variants: seq<Variant>, f: Func, surface: string,
                     name: string)
    requires name != "" && IsIdent(name) && !Declares(others, before, variants, name)
    ensures FreshAt(others, before + [RequestRecord(f, surface, name)], |before|)
  {
    if surface != "" {
      ScopedHasColon(f.package, surface, name);
    }
    assert (before + [RequestRecord(f, surface, name)])[..|before|] == before;
  }

  /** A group's request records get names that nothing is found under when they are added. */
  lemma {:induction false} RequestsFresh(
      types: Types, fs: seq<Func>, surface: string, others: Others, records: seq<Record>, variants: seq<Variant>,
      plan: Plan, n: nat)
    requires GoodPlan(types, fs, TakenNames(others, records, variants), plan) && n <= |fs|
    ensures FreshFrom(others, records + Requests(types, fs, surface, plan.requests, n), |records|)
  {
    if n == 0 {
      assert records + Requests(types, fs, surface, plan.requests, 0) == records;
    } else {
      RequestsFresh(types, fs, surface, others, records, variants, plan, n - 1);
      var before := records + Requests(types, fs, surface, plan.requests, n - 1);
      if NeedsRequest(types, fs[n - 1]) {
        var name := plan.requests[n - 1];
        NextNameFree(types, fs, surface, others, records, variants, plan, n - 1);
        FreshRequest(others, before, variants, fs[n - 1], surface, name);
        FreshFromAppend(others, before, |records|, RequestRecord(fs[n - 1], surface, name));
        assert records + Requests(types, fs, surface, plan.requests, n) ==
               before + [RequestRecord(fs[n - 1], surface, name)];
      } else {
        assert records + Requests(types, fs, surface, plan.requests, n) == before;
      }
    }
  }

  function CommandVariant(types: Types, fs: seq<Func>, surface: string, plan: Plan): Variant
    requires fs != [] && |plan.commands| == |plan.requests| == |fs|
  {
    var name := surface + "-command";
    Variant(Decl(name, ScopedSymbol(fs[0].package, surface, name)), fs[0].package, surface,
            CommandCases(types, fs, plan.commands, plan.requests, |fs|))
  }

  function ReplyVariant(fs: seq<Func>, surface: string, plan: Plan): Variant
    requires fs != [] && |plan.replies| == |fs|
  {
    var name := surface + "-reply";
    Variant(Decl(name, ScopedSymbol(fs[0].package, surface, name)), fs[0].package, surface,
            ReplyCases(fs, plan.replies, |fs|))
  }

  // ---- What lowering leaves behind ----

  /** The tables after lowering one surface; nothing if its names cannot be planned or the
      names of its two variants are taken. */
  ghost function AfterGroup(types: Types, funcs: seq<Func>, others: Others, t: Tables, surface: string)
    : Option<Tables>
  {
    var fs := InSurface(types, funcs, surface);
    var planned := PlanGroup(types, fs, TakenNames(others, t.records, t.variants));
    if planned.None? then None
    else if fs == [] then Some(t)
    else
      var command, reply := CommandVariant(types, fs, surface, planned.value), ReplyVariant(fs, surface, planned.value);
      var records := t.records + Requests(types, fs, surface, planned.value.requests, |fs|);
      if Declares(others, records, t.variants, surface + "-command")
         || Declares(others, records, t.variants + [command], surface + "-reply") then None
      else Some(Tables(records, t.variants + [command, reply]))
  }

  lemma AfterPlanned(types: Types, funcs: seq<Func>, others: Others, t: Tables, surface: string, fs: seq<Func>,
                     plan: Plan)
    requires fs == InSurface(types, funcs, surface) && fs != []
    requires PlanGroup(types, fs, TakenNames(others, t.records, t.variants)) == Some(plan)
    requires var records := t.records + Requests(types, fs, surface, plan.requests, |fs|);
             && !Declares(others, records, t.variants, surface + "-command")
             && !Declares(others, records, t.variants + [CommandVariant(types, fs, surface, plan)], surface + "-reply")
    ensures AfterGroup(types, funcs, others, t, surface) ==
            Some(Tables(t.records + Requests(types, fs, surface, plan.requests, |fs|),
                        t.variants + [CommandVariant(types, fs, surface, plan), ReplyVariant(fs, surface, plan)]))
  {
  }

  ghost function AfterGroups(types: Types, funcs: seq<Func>, others: Others, t: Tables, surfaces: seq<string>)
    : Option<Tables>
  {
    if surfaces == [] then Some(t)
    else
      match AfterGroups(types, funcs, others, t, surfaces[..|surfaces| - 1])
      case None => None
      case Some(u) => AfterGroup(types, funcs, others, u, surfaces[|surfaces| - 1])
  }

  lemma AfterOneMore(types: Types, funcs: seq<Func>, others: Others, t: Tables, u: Tables, surfaces: seq<string>,
                     s: string)
    requires AfterGroups(types, funcs, others, t, surfaces) == Some(u)
    ensures AfterGroups(types, funcs, others, t, surfaces + [s]) == AfterGroup(types, funcs, others, u, s)
  {
    assert (surfaces + [s])[..|surfaces|] == surfaces;
  }

  /** A surface that cannot be lowered stops everything behind it. */
  lemma {:induction false} GroupsStop(types: Types, funcs: seq<Func>, others: Others, t: Tables, front: seq<string>,
                                      surfaces: seq<string>)
    requires front <= surfaces && AfterGroups(types, funcs, others, t, front).None?
    ensures AfterGroups(types, funcs, others, t, surfaces).None?
  {
    if front != surfaces {
      var shorter := surfaces[..|surfaces| - 1];
      assert front <= shorter;
      GroupsStop(types, funcs, others, t, front, shorter);
    }
  }

  // ---- The registry that lowering extends ----

  class Registry {
    const types: Types
    const funcs: seq<Func>
    const others: Others
    var records: seq<Record>
    var variants: seq<Variant>

    constructor (types: Types, funcs: seq<Func>, others: Others, records: seq<Record>, variants: seq<Variant>)
      ensures this.types == types && this.funcs == funcs && this.others == others
      ensures this.records == records && this.variants == variants
    {
      this.types, this.funcs, this.others := types, funcs, others;
      this.records, this.variants := records, variants;
    }

    /** The functions of one surface, in declaration order. */
    method SurfaceFuncs(surface: string) returns (fs: seq<Func>)
      ensures fs == InSurface(types, funcs, surface)
    {
      fs := [];
      for i := 0 to |funcs|
        invariant fs == InSurface(types, funcs[..i], surface)
      {
        assert funcs[..i + 1][..i] == funcs[..i];
        if Surface(types, funcs[i]) == surface {
          fs := fs + [funcs[i]];
        }
      }
      assert funcs[..|funcs|] == funcs;
    }

    method AppendRecord(r: Record) returns (ok: bool)
      modifies `records
      ensures ok == !Declares(others, old(records), variants, r.decl.name)
      ensures records == if ok then old(records) + [r] else old(records)
    {
      ok := !Declares(others, records, variants, r.decl.name);
      if ok {
        records := records + [r];
      }
    }

    method AppendVariant(v: Variant) returns (ok: bool)
      modifies `variants
      ensures ok == !Declares(others, records, old(variants), v.decl.name)
      ensures variants == if ok then old(variants) + [v] else old(variants)
    {
      ok := !Declares(others, records, variants, v.decl.name);
      if ok {
        variants := variants + [v];
      }
    }

    /** Whether nothing is declared yet under the names of a group's two variants. */
    predicate VariantsFree(fs: seq<Func>, surface: string, plan: Plan)
      requires fs != [] && |plan.commands| == |plan.replies| == |plan.requests| == |fs|
      reads this
    {
      var records1 := records + Requests(types, fs, surface, plan.requests, |fs|);
      var command := CommandVariant(types, fs, surface, plan);
      && !Declares(others, records1, variants, surface + "-command")
      && !Declares(others, records1, variants + [command], surface + "-reply")
    }

    method AssignPlan(fs: seq<Func>) returns (r: Option<Plan>)
      ensures r == PlanGroup(types, fs, TakenNames(others, records, variants))
    {
      var ss, taken := Subjects(types, fs), TakenNames(others, records, variants);
      var commands, _ := AssignNames(Problem(Command, ss, taken));
      if commands.None? {
        return None;
      }
      var replies, _ := AssignNames(Problem(Reply, ss, taken));
      if replies.None? {
        return None;
      }
      var requests, _ := AssignNames(Problem(Request, ss, taken));
      if requests.None? {
        return None;
      }
      return Some(Plan(commands.value, replies.value, requests.value));
    }

    /** Adds a reply case unless its name is there; a name with another shape is an error. */
    method AddReply(cases: seq<CaseDecl>, name: string, result: Option<TypeRef>) returns (ok: bool, cs: seq<CaseDecl>)
      requires DistinctCases(cases)
      ensures ok <==> forall c :: 0 <= c < |cases| && cases[c].name == name ==>
                        types.shape(cases[c].payload) == types.shape(result)
      ensures ok ==> cs == if HasCase(cases, name) then cases else cases + [CaseDecl(name, result)]
    {
      for j := 0 to |cases|
        invariant forall c :: 0 <= c < j ==> cases[c].name != name
      {
        if cases[j].name == name {
          return types.shape(cases[j].payload) == types.shape(result), cases;
        }
      }
      return true, cases + [CaseDecl(name, result)];
    }

    /** Lowers function `i`: its request record, its command case and its reply case. With a
        good plan neither the record nor the reply case can be refused. */
    method LowerFunc(fs: seq<Func>, surface: string, plan: Plan, i: nat, ghost records0: seq<Record>,
                     commands: seq<CaseDecl>, replies: seq<CaseDecl>)
      returns (ok: bool, commands': seq<CaseDecl>, replies': seq<CaseDecl>)
      requires GoodPlan(types, fs, TakenNames(others, records0, variants), plan) && i < |fs|
      requires records == records0 + Requests(types, fs, surface, plan.requests, i)
      requires commands == CommandCases(types, fs, plan.commands, plan.requests, i)
      requires replies == ReplyCases(fs, plan.replies, i)
      modifies `records
      ensures ok && records == records0 + Requests(types, fs, surface, plan.requests, i + 1)
      ensures commands' == CommandCases(types, fs, plan.commands, plan.requests, i + 1)
      ensures replies' == ReplyCases(fs, plan.replies, i + 1)
    {
      commands' := commands + [CaseDecl(plan.commands[i], CommandPayload(types, fs[i], plan.requests[i]))];
      replies' := replies;
      if NeedsRequest(types, fs[i]) {
        NextNameFree(types, fs, surface, others, records0, variants, plan, i);
        ok := AppendRecord(RequestRecord(fs[i], surface, plan.requests[i]));
        if !ok {
          return;
        }
      }
      RepliesDistinct(fs, plan.replies, i);
      RepliesAgree(types, fs, plan.replies, i);
      ok, replies' := AddReply(replies, plan.replies[i], fs[i].result);
    }

    method LowerFuncs(fs: seq<Func>, surface: string, plan: Plan)
      returns (ok: bool, commands: seq<CaseDecl>, replies: seq<CaseDecl>)
      requires GoodPlan(types, fs, TakenNames(others, records, variants), plan)
      modifies `records
      ensures ok && records == old(records) + Requests(types, fs, surface, plan.requests, |fs|)
      ensures commands == CommandCases(types, fs, plan.commands, plan.requests, |fs|)
      ensures replies == ReplyCases(fs, plan.replies, |fs|)
    {
      ghost var records0 := records;
      ok, commands, replies := true, [], [];
      var i := 0;
      while i < |fs|
        invariant ok && i <= |fs| && records == records0 + Requests(types, fs, surface, plan.requests, i)
        invariant commands == CommandCases(types, fs, plan.commands, plan.requests, i)
        invariant replies == ReplyCases(fs, plan.replies, i)
      {
        ok, commands, replies := LowerFunc(fs, surface, plan, i, records0, commands, replies);
        if !ok {
          return;
        }
        i := i + 1;
      }
    }

    /** Appends the two variants of a lowered group. */
    method AppendPair(command: Variant, reply: Variant) returns (ok: bool)
      modifies `variants
      ensures ok == (!Declares(others, records, old(variants), command.decl.name)
                     && !Declares(others, records, old(variants) + [command], reply.decl.name))
      ensures ok ==> variants == old(variants) + [command, reply]
    {
      ok := AppendVariant(command);
      if ok {
        ok := AppendVariant(reply);
      }
    }

    /** Lowers the functions of one surface. Once the names are planned, only the names of
        the two variants themselves can still collide. */
    method LowerGroup(surface: string) returns (ok: bool)
      requires forall i :: 0 <= i < |funcs| ==> ValidFunc(funcs[i])
      modifies this
      ensures var fs := InSurface(types, funcs, surface);
              var plan := PlanGroup(types, fs, TakenNames(others, old(records), old(variants)));
              && ok == (plan.Some? && (fs == [] || old(VariantsFree(fs, surface, plan.value))))
              && (ok && fs != [] ==>
                    && records == old(records) + Requests(types, fs, surface, plan.value.requests, |fs|)
                    && variants == old(variants) + [CommandVariant(types, fs, surface, plan.value),
                                                    ReplyVariant(fs, surface, plan.value)])
              && (ok && fs == [] ==> records == old(records) && variants == old(variants))
    {
      var fs := SurfaceFuncs(surface);
      var planned := AssignPlan(fs);
      if planned.None? {
        return false;
      }
      var plan := planned.value;
      SurfaceFuncsValid(types, funcs, surface);
      PlanIsGood(types, fs, TakenNames(others, records, variants));
      var commands, replies;
      ok, commands, replies := LowerFuncs(fs, surface, plan);
      if !ok || |commands| == 0 {
        return;
      }
      assert CommandVariant(types, fs, surface, plan).(cases := commands) == CommandVariant(types, fs, surface, plan);
      ok := AppendPair(CommandVariant(types, fs, surface, plan).(cases := commands),
                       ReplyVariant(fs, surface, plan).(cases := replies));
    }

    /** `variants[at]` and the one behind it are the lowered form of surface `s`. */
    ghost predicate Lowered(t: Tables, base: nat, at: nat, s: string) {
      var fs := InSurface(types, funcs, s);
      && at + 1 < |t.variants|
      && CommandFor(types, t.variants[at], fs, t.records, base)
      && Replied(types, t.variants[at + 1], fs)
    }

    /** Behind `start`, the variants are the lowered forms of the surfaces `ss`, in order, and every new record
        was fresh when it was added. */
    ghost predicate AllLowered(start: Tables, t: Tables, ss: seq<string>) {
      && start.records <= t.records && start.variants <= t.variants
      && |t.variants| == |start.variants| + 2 * |ss|
      && FreshFrom(others, t.records, |start.records|)
      && forall g :: 0 <= g < |ss| ==> Lowered(t, |start.records|, |start.variants| + 2 * g, ss[g])
    }

    lemma AllLoweredAdd(start: Tables, t: Tables, u: Tables, ss: seq<string>, s: string)
      requires AllLowered(start, t, ss) && t.records <= u.records && t.variants <= u.variants
      requires |u.variants| == |t.variants| + 2 && FreshFrom(others, u.records, |t.records|)
      requires Lowered(u, |t.records|, |t.variants|, s)
      ensures AllLowered(start, u, ss + [s])
    {
      forall g | 0 <= g < |ss + [s]|
        ensures Lowered(u, |start.records|, |start.variants| + 2 * g, (ss + [s])[g])
      {
        if g < |ss| {
          LoweredGrows(t, u, |start.records|, |start.variants| + 2 * g, ss[g]);
        } else {
          LoweredEarlier(u, |t.records|, |start.records|, |t.variants|, s);
        }
      }
      FreshTogether(others, t.records, u.records, |start.records|);
    }

    lemma LoweredGrows(t: Tables, u: Tables, base: nat, at: nat, s: string)
      requires t.records <= u.records && t.variants <= u.variants && Lowered(t, base, at, s)
      ensures Lowered(u, base, at, s)
    {
      var fs := InSurface(types, funcs, s);
      assert u.variants[at] == t.variants[at] && u.variants[at + 1] == t.variants[at + 1];
      forall k | 0 <= k < |fs| ensures Requested(types, u.variants[at].cases[k].payload, fs[k], u.records, base) {
        RequestedGrows(types, t.variants[at].cases[k].payload, fs[k], t.records, u.records, base);
      }
    }

    lemma LoweredEarlier(t: Tables, base: nat, earlier: nat, at: nat, s: string)
      requires Lowered(t, base, at, s) && earlier <= base
      ensures Lowered(t, earlier, at, s)
    {
      var fs := InSurface(types, funcs, s);
      forall k | 0 <= k < |fs| ensures Requested(types, t.variants[at].cases[k].payload, fs[k], t.records, earlier) {
        assert Requested(types, t.variants[at].cases[k].payload, fs[k], t.records, base);
      }
    }

    /** Lowers one surface and states what its two variants mean. */
    method LowerSurface(s: string) returns (ok: bool)
      requires (forall i :: 0 <= i < |funcs| ==> ValidFunc(funcs[i])) && InSurface(types, funcs, s) != []
      modifies this
      ensures ok ==> old(records) <= records && old(variants) <= variants && |variants| == |old(variants)| + 2
      ensures ok ==> FreshFrom(others, records, |old(records)|)
                     && Lowered(Tables(records, variants), |old(records)|, |old(variants)|, s)
      ensures AfterGroup(types, funcs, others, Tables(old(records), old(variants)), s) ==
              if ok then Some(Tables(records, variants)) else None
    {
      ghost var fs := InSurface(types, funcs, s);
      ghost var taken := TakenNames(others, records, variants);
      ok := LowerGroup(s);
      if ok {
        ghost var plan := PlanGroup(types, fs, taken).value;
        SurfaceFuncsValid(types, funcs, s);
        PlanIsGood(types, fs, taken);
        RequestsAreNamed(types, fs, s, taken, plan, old(records));
        RequestsFresh(types, fs, s, others, old(records), old(variants), plan, |fs|);
        ReplyPreserves(types, fs, s, taken, plan);
      }
    }

    /** Lowers the surface of function `i` unless an earlier function already had it lowered. */
    method LowerNext(i: nat, ghost start: Tables) returns (ok: bool)
      requires i < |funcs| && AllLowered(start, Tables(records, variants), Surfaces(types, funcs[..i]))
      requires AfterGroups(types, funcs, others, start, Surfaces(types, funcs[..i])) == Some(Tables(records, variants))
      requires forall k :: 0 <= k < |funcs| ==> ValidFunc(funcs[k])
      modifies this
      ensures ok ==> AllLowered(start, Tables(records, variants), Surfaces(types, funcs[..i + 1]))
      ensures AfterGroups(types, funcs, others, start, Surfaces(types, funcs[..i + 1])) ==
              if ok then Some(Tables(records, variants)) else None
    {
      ghost var ss, s := Surfaces(types, funcs[..i]), Surface(types, funcs[i]);
      SurfacesStep(types, funcs, i);
      var seen := SeenBefore(i);
      if seen {
        return true;
      }
      InSurfaceMember(types, funcs, i);
      ghost var before := Tables(records, variants);
      AfterOneMore(types, funcs, others, start, before, ss, s);
      ok := LowerSurface(Surface(types, funcs[i]));
      if ok {
        AllLoweredAdd(start, before, Tables(records, variants), ss, s);
      }
    }

    /** In the tables `t` that lowering made of `start`, every command case means its function and every reply
        case answers one. */
    ghost predicate Preserved(start: Tables, t: Tables, ss: seq<string>) {
      && start.records <= t.records && start.variants <= t.variants
      && |t.variants| == |start.variants| + 2 * |ss|
      && forall g :: 0 <= g < |ss| ==> GroupPreserved(start, t, |start.variants| + 2 * g, ss[g])
    }

    ghost predicate GroupPreserved(start: Tables, t: Tables, at: nat, s: string) {
      && at + 1 < |t.variants|
      && CommandMeans(types, others, start.records, t, t.variants[at], InSurface(types, funcs, s))
      && Replied(types, t.variants[at + 1], InSurface(types, funcs, s))
    }

    lemma GroupMeans(start: Tables, t: Tables, at: nat, s: string)
      requires Lowered(t, |start.records|, at, s) && start.records <= t.records
      requires FreshFrom(others, t.records, |start.records|)
      ensures GroupPreserved(start, t, at, s)
    {
      assert t.records[..|start.records|] == start.records;
      CommandPreserves(types, others, t, t.variants[at], InSurface(types, funcs, s), |start.records|);
    }

    /** In the end every payload leads to its own request record exactly when no planned name is a builtin
        type or shared by two declared records. */
    ghost predicate LeadsExactly(start: Tables, t: Tables) {
      && |start.records| <= |t.records|
      && (AllPayloadsLead(others, t, |start.records|) <==> AllUsable(start.records, t.records[|start.records|..]))
    }

    lemma LoweredMeans(start: Tables, t: Tables, ss: seq<string>)
      requires AllLowered(start, t, ss)
      ensures Preserved(start, t, ss) && LeadsExactly(start, t)
    {
      assert t.records[..|start.records|] == start.records;
      forall g | 0 <= g < |ss| ensures GroupPreserved(start, t, |start.variants| + 2 * g, ss[g]) {
        GroupMeans(start, t, |start.variants| + 2 * g, ss[g]);
      }
      PayloadsLeadExactly(others, t, |start.records|);
    }

    /** Lowers every surface, in order of first appearance; fails exactly when one of them
        cannot be lowered in its turn. In the end every payload leads to its own request record
        exactly when no planned name is a builtin type or shared by two declared records. */
    method LowerOperations() returns (ok: bool)
      requires forall i :: 0 <= i < |funcs| ==> ValidFunc(funcs[i])
      modifies this
      ensures AfterGroups(types, funcs, others, Tables(old(records), old(variants)), Surfaces(types, funcs)) ==
              if ok then Some(Tables(records, variants)) else None
      ensures ok ==> Preserved(Tables(old(records), old(variants)), Tables(records, variants), Surfaces(types, funcs))
      ensures ok ==> LeadsExactly(Tables(old(records), old(variants)), Tables(records, variants))
    {
      ghost var start := Tables(records, variants);
      ok := LowerSurfaces(start);
      if ok {
        LoweredMeans(start, Tables(records, variants), Surfaces(types, funcs));
      }
    }

    method LowerSurfaces(ghost start: Tables) returns (ok: bool)
      requires (forall i :: 0 <= i < |funcs| ==> ValidFunc(funcs[i])) && start == Tables(records, variants)
      modifies this
      ensures AfterGroups(types, funcs, others, start, Surfaces(types, funcs)) ==
              if ok then Some(Tables(records, variants)) else None
      ensures ok ==> AllLowered(start, Tables(records, variants), Surfaces(types, funcs))
    {
      for i := 0 to |funcs|
        invariant AllLowered(start, Tables(records, variants), Surfaces(types, funcs[..i]))
        invariant AfterGroups(types, funcs, others, start, Surfaces(types, funcs[..i])) ==
                  Some(Tables(records, variants))
      {
        ok := LowerNext(i, start);
        if !ok {
          SurfacesPrefix(types, funcs, i + 1);
          GroupsStop(types, funcs, others, start, Surfaces(types, funcs[..i + 1]), Surfaces(types, funcs));
          return;
        }
      }
      assert funcs[..|funcs|] == funcs;
      ok := true;
    }

    method SeenBefore(i: nat) returns (seen: bool)
      requires i < |funcs|
      ensures seen <==> Surface(types, funcs[i]) in Surfaces(types, funcs[..i])
    {
      for j := 0 to i
        invariant forall k :: 0 <= k < j ==> Surface(types, funcs[k]) != Surface(types, funcs[i])
      {
        if Surface(types, funcs[j]) == Surface(types, funcs[i]) {
          SurfacesComplete(types, funcs[..i]);
          assert funcs[..i][j] == funcs[j];
          return true;
        }
      }
      if Surface(types, funcs[i]) in Surfaces(types, funcs[..i]) {
        SurfaceOrigin(types, funcs[..i], Surface(types, funcs[i]));
      }
      return false;
    }
  }

  lemma {:induction false} InSurfaceMember(types: Types, fs: seq<Func>, i: nat)
    requires i < |fs|
    ensures InSurface(types, fs, Surface(types, fs[i])) != []
  {
    if i < |fs| - 1 {
      InSurfaceMember(types, fs[..|fs| - 1], i);
    }
  }

  // ---- The interface is preserved ----

  /** The payload names a request record behind the first `base` ones, with the receiver and the parameters
      in order; or it is the single record parameter; or there is none. */
  ghost predicate Requested(types: Types, payload: Option<TypeRef>, f: Func, records: seq<Record>, base: nat) {
    if NeedsRequest(types, f) then exists i :: base <= i < |records| && IsRequest(payload, f, records[i])
    else payload == if PassesRecord(types, f) then Some(f.params[0].ty) else None
  }

  lemma RequestedGrows(types: Types, payload: Option<TypeRef>, f: Func, records: seq<Record>, more: seq<Record>,
                       base: nat)
    requires Requested(types, payload, f, records, base) && records <= more
    ensures Requested(types, payload, f, more, base)
  {
    if NeedsRequest(types, f) {
      var i :| base <= i < |records| && IsRequest(payload, f, records[i]);
      assert more[i] == records[i];
    }
  }

  predicate IsRequest(payload: Option<TypeRef>, f: Func, r: Record) {
    payload == Some(Symbol(r.decl.name)) && r.fields == RequestFields(f)
  }

  /** The cases of `v` are the functions `fs`, in order and apart. */
  ghost predicate CommandFor(types: Types, v: Variant, fs: seq<Func>, records: seq<Record>, base: nat) {
    && |v.cases| == |fs| && DistinctCases(v.cases)
    && (forall k :: 0 <= k < |fs| ==> Requested(types, v.cases[k].payload, fs[k], records, base))
  }

  /** A command case carries its function's arguments: its payload names the function's request record, and
      the emitter's lookup over the final tables leads to that record exactly when it is usable. */
  ghost predicate CarriesArguments(types: Types, others: Others, declared: seq<Record>, t: Tables,
                                   payload: Option<TypeRef>, f: Func) {
    if NeedsRequest(types, f) then
      exists i: nat :: |declared| <= i < |t.records| && IsRequest(payload, f, t.records[i])
                       && (PayloadTarget(others, t, t.records[i].decl.name) == ToRecord(i) <==>
                           Usable(declared, t.records[i]))
    else payload == if PassesRecord(types, f) then Some(f.params[0].ty) else None
  }

  /** The cases of `v` carry the arguments of the functions `fs`, in order and apart. */
  ghost predicate CommandMeans(types: Types, others: Others, declared: seq<Record>, t: Tables, v: Variant,
                               fs: seq<Func>) {
    && |v.cases| == |fs| && DistinctCases(v.cases)
    && (forall k :: 0 <= k < |fs| ==> CarriesArguments(types, others, declared, t, v.cases[k].payload, fs[k]))
  }

  /** In the final tables every case means its function. */
  lemma CommandPreserves(types: Types, others: Others, t: Tables, v: Variant, fs: seq<Func>, base: nat)
    requires CommandFor(types, v, fs, t.records, base) && FreshFrom(others, t.records, base)
    ensures CommandMeans(types, others, t.records[..base], t, v, fs)
  {
    forall k | 0 <= k < |fs|
      ensures CarriesArguments(types, others, t.records[..base], t, v.cases[k].payload, fs[k])
    {
      assert Requested(types, v.cases[k].payload, fs[k], t.records, base);
      if NeedsRequest(types, fs[k]) {
        var i: nat :| base <= i < |t.records| && IsRequest(v.cases[k].payload, fs[k], t.records[i]);
        LeadsToOwnRecord(others, t, base, i);
      }
    }
  }

  /** Every request record is what its payload leads to. */
  ghost predicate AllPayloadsLead(others: Others, t: Tables, base: nat) {
    forall i: nat :: base <= i < |t.records| ==> PayloadTarget(others, t, t.records[i].decl.name) == ToRecord(i)
  }

  /** No planned request name is a builtin type or shared by two declared records. */
  predicate AllUsable(declared: seq<Record>, requests: seq<Record>) {
    forall r :: r in requests ==> Usable(declared, r)
  }

  lemma PayloadsLeadExactly(others: Others, t: Tables, base: nat)
    requires FreshFrom(others, t.records, base)
    ensures AllPayloadsLead(others, t, base) <==> AllUsable(t.records[..base], t.records[base..])
  {
    forall i: nat | base <= i < |t.records|
      ensures PayloadTarget(others, t, t.records[i].decl.name) == ToRecord(i) <==>
              Usable(t.records[..base], t.records[i])
      ensures t.records[i] in t.records[base..]
    {
      LeadsToOwnRecord(others, t, base, i);
      assert t.records[base..][i - base] == t.records[i];
    }
    if AllPayloadsLead(others, t, base) {
      forall r | r in t.records[base..] ensures Usable(t.records[..base], r) {
        var k :| 0 <= k < |t.records[base..]| && t.records[base..][k] == r;
        assert t.records[base + k] == r;
      }
    }
  }

  /** Every function of `fs` has one case in `v`, with the shape of its result, and no case
      belongs to no function. */
  ghost predicate ReplyFor(types: Types, v: Variant, fs: seq<Func>, names: seq<string>) {
    && |names| == |fs| && DistinctCases(v.cases)
    && (forall k :: 0 <= k < |fs| ==> Answers(types, v.cases, names[k], fs[k].result))
    && (forall c :: 0 <= c < |v.cases| ==> exists k :: 0 <= k < |fs| && v.cases[c] == CaseDecl(names[k], fs[k].result))
  }

  ghost predicate Replied(types: Types, v: Variant, fs: seq<Func>) {
    exists names :: ReplyFor(types, v, fs, names)
  }

  lemma {:induction false} RequestAmong(types: Types, fs: seq<Func>, surface: string, names: seq<string>, n: nat,
                                        k: nat)
    returns (i: nat)
    requires k < n <= |fs| == |names| && NeedsRequest(types, fs[k])
    ensures i < |Requests(types, fs, surface, names, n)|
    ensures Requests(types, fs, surface, names, n)[i] == RequestRecord(fs[k], surface, names[k])
    decreases n
  {
    if k == n - 1 {
      i := |Requests(types, fs, surface, names, n)| - 1;
    } else {
      i := RequestAmong(types, fs, surface, names, n - 1, k);
    }
  }

  lemma RequestsAreNamed(types: Types, fs: seq<Func>, surface: string, taken: string -> bool, plan: Plan,
                         before: seq<Record>)
    requires fs != [] && GoodPlan(types, fs, taken, plan)
    ensures CommandFor(types, CommandVariant(types, fs, surface, plan), fs,
                       before + Requests(types, fs, surface, plan.requests, |fs|), |before|)
  {
    var v := CommandVariant(types, fs, surface, plan);
    var requests := Requests(types, fs, surface, plan.requests, |fs|);
    forall k | 0 <= k < |fs| ensures Requested(types, v.cases[k].payload, fs[k], before + requests, |before|) {
      if NeedsRequest(types, fs[k]) {
        var i := RequestAmong(types, fs, surface, plan.requests, |fs|, k);
        assert (before + requests)[|before| + i] == requests[i];
      }
    }
  }

  lemma ReplyPreserves(types: Types, fs: seq<Func>, surface: string, taken: string -> bool, plan: Plan)
    requires fs != [] && GoodPlan(types, fs, taken, plan)
    ensures ReplyFor(types, ReplyVariant(fs, surface, plan), fs, plan.replies)
  {
    var cs := ReplyVariant(fs, surface, plan).cases;
    RepliesDistinct(fs, plan.replies, |fs|);
    forall k | 0 <= k < |fs| ensures Answers(types, cs, plan.replies[k], fs[k].result) {
      RepliesAnswer(types, fs, plan.replies, |fs|, k);
    }
    forall c | 0 <= c < |cs|
      ensures exists k :: 0 <= k < |fs| && cs[c] == CaseDecl(plan.replies[k], fs[k].result)
    {
      var k := ReplyOrigins(fs, plan.replies, |fs|, c);
    }
  }

  // ---- Every function lands in one group ----

  /** The surfaces of `fs`, each once, by first appearance. */
  function Surfaces(types: Types, fs: seq<Func>): seq<string> {
    if fs == [] then []
    else
      var front := Surfaces(types, fs[..|fs| - 1]);
      var s := Surface(types, fs[|fs| - 1]);
      if s in front then front else front + [s]
  }

  lemma SurfacesStep(types: Types, fs: seq<Func>, i: nat)
    requires i < |fs|
    ensures var front, s := Surfaces(types, fs[..i]), Surface(types, fs[i]);
            Surfaces(types, fs[..i + 1]) == if s in front then front else front + [s]
  {
    assert fs[..i + 1][..i] == fs[..i];
  }

  lemma {:induction false} SurfacesPrefix(types: Types, fs: seq<Func>, k: nat)
    requires k <= |fs|
    ensures Surfaces(types, fs[..k]) <= Surfaces(types, fs)
  {
    if k < |fs| {
      SurfacesPrefix(types, fs[..|fs| - 1], k);
      assert fs[..|fs| - 1][..k] == fs[..k];
    } else {
      assert fs[..k] == fs;
    }
  }

  lemma {:induction false} SurfacesComplete(types: Types, fs: seq<Func>)
    ensures Distinct(Surfaces(types, fs))
    ensures forall i :: 0 <= i < |fs| ==> Surface(types, fs[i]) in Surfaces(types, fs)
  {
    if fs != [] {
      SurfacesComplete(types, fs[..|fs| - 1]);
    }
  }

  lemma {:induction false} SurfaceOrigin(types: Types, fs: seq<Func>, s: string)
    requires s in Surfaces(types, fs)
    ensures exists k :: 0 <= k < |fs| && Surface(types, fs[k]) == s
  {
    if Surface(types, fs[|fs| - 1]) != s {
      SurfaceOrigin(types, fs[..|fs| - 1], s);
      var k :| 0 <= k < |fs| - 1 && Surface(types, fs[..|fs| - 1][k]) == s;
      assert Surface(types, fs[k]) == s;
    }
  }

  /** The functions group by group. */
  function Gather(types: Types, fs: seq<Func>, surfaces: seq<string>): seq<Func> {
    if surfaces == [] then [] else InSurface(types, fs, surfaces[0]) + Gather(types, fs, surfaces[1..])
  }

  lemma {:induction false} GatherLast(types: Types, fs: seq<Func>, f: Func, surfaces: seq<string>)
    requires Distinct(surfaces)
    ensures multiset(Gather(types, fs + [f], surfaces)) ==
            multiset(Gather(types, fs, surfaces)) + (if Surface(types, f) in surfaces then multiset{f} else multiset{})
  {
    if surfaces != [] {
      assert (fs + [f])[..|fs + [f]| - 1] == fs;
      GatherLast(types, fs, f, surfaces[1..]);
      assert forall s :: s in surfaces <==> s == surfaces[0] || s in surfaces[1..];
    }
  }

  lemma {:induction false} GatherNothing(types: Types, surfaces: seq<string>)
    ensures Gather(types, [], surfaces) == []
  {
    if surfaces != [] {
      GatherNothing(types, surfaces[1..]);
    }
  }

  /** Grouping loses no function and repeats none. */
  lemma {:induction false} GroupsPartition(types: Types, fs: seq<Func>, surfaces: seq<string>)
    requires Distinct(surfaces) && forall i :: 0 <= i < |fs| ==> Surface(types, fs[i]) in surfaces
    ensures multiset(Gather(types, fs, surfaces)) == multiset(fs)
    decreases |fs|
  {
    if fs == [] {
      GatherNothing(types, surfaces);
    } else {
      var front, f := fs[..|fs| - 1], fs[|fs| - 1];
      GroupsPartition(types, front, surfaces);
      assert fs == front + [f];
      GatherLast(types, front, f, surfaces);
    }
  }

  /** Every function lands in exactly one of the groups that are lowered. */
  lemma EveryFunctionInOneGroup(types: Types, fs: seq<Func>)
    ensures Distinct(Surfaces(types, fs))
    ensures multiset(Gather(types, fs, Surfaces(types, fs))) == multiset(fs)
  {
    SurfacesComplete(types, fs);
    GroupsPartition(types, fs, Surfaces(types, fs));
  }

  lemma RepliesAgree(types: Types, fs: seq<Func>, names: seq<string>, n: nat)
    requires n < |fs| && ShapesAgree(types, fs, names)
    ensures var cs := ReplyCases(fs, names, n);
            forall c :: 0 <= c < |cs| && cs[c].name == names[n] ==>
              types.shape(cs[c].payload) == types.shape(fs[n].result)
  {
    var cs := ReplyCases(fs, names, n);
    forall c | 0 <= c < |cs| && cs[c].name == names[n]
      ensures types.shape(cs[c].payload) == types.shape(fs[n].result)
    {
      var k := ReplyOrigins(fs, names, n, c);
    }
  }

  lemma {:induction false} SurfaceFuncsValid(types: Types, funcs: seq<Func>, surface: string)
    requires forall i :: 0 <= i < |funcs| ==> ValidFunc(funcs[i])
    ensures forall i :: 0 <= i < |InSurface(types, funcs, surface)| ==> ValidFunc(InSurface(types, funcs, surface)[i])
  {
    if funcs != [] {
      SurfaceFuncsValid(types, funcs[..|funcs| - 1], surface);
    }
  }
}
