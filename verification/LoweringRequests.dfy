/** What lowering adds over all surfaces: whose request the new records are, and when every payload leads to
    its own by the input alone. */
module LoweringRequests {
  import opened Wrappers
  import opened Naming
  import opened Lookups
  import opened Lowering

  // ---- Where records and payloads come from ----

  /** `r` is the request record of `f`, under one of the names that `f` may get. */
  predicate RequestOf(types: Types, f: Func, r: Record) {
    NeedsRequest(types, f) && exists level | 0 <= level <= MAX_LEVEL ::
      r == RequestRecord(f, Surface(types, f), RequestCandidate(SubjectOf(types, f), level))
  }

  predicate IsPlanned(types: Types, funcs: seq<Func>, r: Record) {
    exists f | f in funcs :: RequestOf(types, f, r)
  }

  /** A type from the source, or a local name made by lowering. */
  predicate IsLocal(ty: TypeRef) {
    ty.Symbol? ==> IsIdent(ty.symbol)
  }

  predicate LocalPayloads(v: Variant) {
    forall c :: 0 <= c < |v.cases| && v.cases[c].payload.Some? ==> IsLocal(v.cases[c].payload.value)
  }

  /** As parsed, parameters and results are types of the source. */
  predicate AsParsed(funcs: seq<Func>) {
    forall f :: f in funcs ==>
      && (forall p :: p in f.params ==> p.ty.Source?)
      && (f.result.Some? ==> f.result.value.Source?)
  }

  ghost predicate AllValid(funcs: seq<Func>) {
    forall i :: 0 <= i < |funcs| ==> ValidFunc(funcs[i])
  }

  lemma {:induction false} InSurfaceFrom(types: Types, funcs: seq<Func>, s: string, f: Func)
    requires f in InSurface(types, funcs, s)
    ensures f in funcs && Surface(types, f) == s
  {
    if f in InSurface(types, funcs[..|funcs| - 1], s) {
      InSurfaceFrom(types, funcs[..|funcs| - 1], s, f);
    }
  }

  lemma {:induction false} RequestsFrom(types: Types, fs: seq<Func>, surface: string, names: seq<string>, n: nat,
                                        r: Record)
    returns (k: nat)
    requires n <= |fs| == |names| && r in Requests(types, fs, surface, names, n)
    ensures k < n && NeedsRequest(types, fs[k]) && r == RequestRecord(fs[k], surface, names[k])
  {
    if r in Requests(types, fs, surface, names, n - 1) {
      k := RequestsFrom(types, fs, surface, names, n - 1, r);
    } else {
      k := n - 1;
    }
  }

  lemma RequestIsPlanned(types: Types, funcs: seq<Func>, s: string, taken: string -> bool, r: Record)
    requires var fs := InSurface(types, funcs, s); var planned := PlanGroup(types, fs, taken);
             planned.Some? && r in Requests(types, fs, s, planned.value.requests, |fs|)
    ensures IsPlanned(types, funcs, r)
  {
    var fs := InSurface(types, funcs, s);
    var plan := PlanGroup(types, fs, taken).value;
    var k := RequestsFrom(types, fs, s, plan.requests, |fs|, r);
    InSurfaceFrom(types, funcs, s, fs[k]);
    var level := NameIsCandidate(Problem(Request, Subjects(types, fs), taken), k);
    var low := if level > MAX_LEVEL then MAX_LEVEL else level;
    assert RequestCandidate(SubjectOf(types, fs[k]), low) == RequestCandidate(SubjectOf(types, fs[k]), level);
    assert RequestOf(types, fs[k], r);
  }

  lemma CommandsAreLocal(types: Types, funcs: seq<Func>, s: string, taken: string -> bool, plan: Plan)
    requires var fs := InSurface(types, funcs, s); fs != [] && GoodPlan(types, fs, taken, plan)
    requires AsParsed(funcs)
    ensures LocalPayloads(CommandVariant(types, InSurface(types, funcs, s), s, plan))
  {
    var fs := InSurface(types, funcs, s);
    var v := CommandVariant(types, fs, s, plan);
    forall c | 0 <= c < |v.cases| && v.cases[c].payload.Some? ensures IsLocal(v.cases[c].payload.value) {
      InSurfaceFrom(types, funcs, s, fs[c]);
      assert PassesRecord(types, fs[c]) ==> fs[c].params[0] in fs[c].params;
    }
  }

  lemma RepliesAreLocal(types: Types, funcs: seq<Func>, s: string, plan: Plan)
    requires var fs := InSurface(types, funcs, s); fs != [] && |plan.replies| == |fs|
    requires AsParsed(funcs)
    ensures LocalPayloads(ReplyVariant(InSurface(types, funcs, s), s, plan))
  {
    var fs := InSurface(types, funcs, s);
    var v := ReplyVariant(fs, s, plan);
    forall c | 0 <= c < |v.cases| && v.cases[c].payload.Some? ensures IsLocal(v.cases[c].payload.value) {
      var k := ReplyOrigins(fs, plan.replies, |fs|, c);
      InSurfaceFrom(types, funcs, s, fs[k]);
    }
  }

  // ---- One surface ----

  /** `u` extends `t` by fresh request records and by variants with local payloads. */
  ghost predicate Extended(types: Types, funcs: seq<Func>, others: Others, t: Tables, u: Tables) {
    && t.records <= u.records && t.variants <= u.variants
    && FreshFrom(others, u.records, |t.records|)
    && (forall i :: |t.records| <= i < |u.records| ==> IsPlanned(types, funcs, u.records[i]))
    && (AsParsed(funcs) ==> forall j :: |t.variants| <= j < |u.variants| ==> LocalPayloads(u.variants[j]))
  }

  lemma ExtendedTwice(types: Types, funcs: seq<Func>, others: Others, t: Tables, u: Tables, w: Tables)
    requires Extended(types, funcs, others, t, u) && Extended(types, funcs, others, u, w)
    ensures Extended(types, funcs, others, t, w)
  {
    FreshTogether(others, u.records, w.records, |t.records|);
    assert forall i :: 0 <= i < |u.records| ==> w.records[i] == u.records[i];
    assert forall j :: 0 <= j < |u.variants| ==> w.variants[j] == u.variants[j];
  }

  /** The tables that lowering a surface with functions makes, by its plan. */
  ghost predicate Made(types: Types, funcs: seq<Func>, others: Others, t: Tables, u: Tables, s: string, plan: Plan) {
    var fs := InSurface(types, funcs, s);
    && fs != [] && GoodPlan(types, fs, TakenNames(others, t.records, t.variants), plan)
    && PlanGroup(types, fs, TakenNames(others, t.records, t.variants)) == Some(plan)
    && u.records == t.records + Requests(types, fs, s, plan.requests, |fs|)
    && u.variants == t.variants + [CommandVariant(types, fs, s, plan), ReplyVariant(fs, s, plan)]
  }

  lemma GroupMakes(types: Types, funcs: seq<Func>, others: Others, t: Tables, s: string)
    requires AllValid(funcs) && AfterGroup(types, funcs, others, t, s).Some?
    ensures var u := AfterGroup(types, funcs, others, t, s).value;
            var planned := PlanGroup(types, InSurface(types, funcs, s), TakenNames(others, t.records, t.variants));
            if InSurface(types, funcs, s) == [] then u == t
            else planned.Some? && Made(types, funcs, others, t, u, s, planned.value)
  {
    SurfaceFuncsValid(types, funcs, s);
    PlanIsGood(types, InSurface(types, funcs, s), TakenNames(others, t.records, t.variants));
  }

  lemma MadeExtends(types: Types, funcs: seq<Func>, others: Others, t: Tables, u: Tables, s: string, plan: Plan)
    requires Made(types, funcs, others, t, u, s, plan)
    ensures Extended(types, funcs, others, t, u)
  {
    RequestsFresh(types, InSurface(types, funcs, s), s, others, t.records, t.variants, plan,
                  |InSurface(types, funcs, s)|);
    forall i | |t.records| <= i < |u.records| ensures IsPlanned(types, funcs, u.records[i]) {
      MadePlanned(types, funcs, others, t, u, s, plan, i);
    }
    if AsParsed(funcs) {
      CommandsAreLocal(types, funcs, s, TakenNames(others, t.records, t.variants), plan);
      RepliesAreLocal(types, funcs, s, plan);
      LastTwo(t.variants, u.variants);
    }
  }

  lemma LastTwo(vs: seq<Variant>, more: seq<Variant>)
    requires |more| == |vs| + 2 && LocalPayloads(more[|vs|]) && LocalPayloads(more[|vs| + 1])
    ensures forall j :: |vs| <= j < |more| ==> LocalPayloads(more[j])
  {
  }

  lemma MadePlanned(types: Types, funcs: seq<Func>, others: Others, t: Tables, u: Tables, s: string, plan: Plan,
                    i: nat)
    requires Made(types, funcs, others, t, u, s, plan) && |t.records| <= i < |u.records|
    ensures IsPlanned(types, funcs, u.records[i])
  {
    var fs := InSurface(types, funcs, s);
    assert u.records[i] == Requests(types, fs, s, plan.requests, |fs|)[i - |t.records|];
    RequestIsPlanned(types, funcs, s, TakenNames(others, t.records, t.variants), u.records[i]);
  }

  lemma GroupExtends(types: Types, funcs: seq<Func>, others: Others, t: Tables, s: string)
    requires AllValid(funcs) && AfterGroup(types, funcs, others, t, s).Some?
    ensures Extended(types, funcs, others, t, AfterGroup(types, funcs, others, t, s).value)
  {
    var fs := InSurface(types, funcs, s);
    GroupMakes(types, funcs, others, t, s);
    if fs != [] {
      var plan := PlanGroup(types, fs, TakenNames(others, t.records, t.variants)).value;
      MadeExtends(types, funcs, others, t, AfterGroup(types, funcs, others, t, s).value, s, plan);
    }
  }

  // ---- All surfaces ----

  lemma {:induction false} GroupsExtend(types: Types, funcs: seq<Func>, others: Others, start: Tables,
                                        surfaces: seq<string>)
    requires AllValid(funcs) && AfterGroups(types, funcs, others, start, surfaces).Some?
    ensures Extended(types, funcs, others, start, AfterGroups(types, funcs, others, start, surfaces).value)
  {
    if surfaces != [] {
      var front, last := surfaces[..|surfaces| - 1], surfaces[|surfaces| - 1];
      var u := AfterGroups(types, funcs, others, start, front).value;
      GroupsExtend(types, funcs, others, start, front);
      GroupExtends(types, funcs, others, u, last);
      ExtendedTwice(types, funcs, others, start, u, AfterGroup(types, funcs, others, u, last).value);
    }
  }

  /** No name that a function's request may get is a builtin type or shared by two declared records. */
  predicate PlainNames(types: Types, funcs: seq<Func>, declared: seq<Record>) {
    forall f, level | f in funcs && 0 <= level <= MAX_LEVEL :: NeedsRequest(types, f) ==>
      var name := RequestCandidate(SubjectOf(types, f), level);
      !IsBuiltin(name) && LocalCount(RecordDecls(declared), name) < 2
  }

  /** With such names, whatever the rounds of naming choose, every payload leads to its own request record. */
  lemma PlainNamesLead(types: Types, funcs: seq<Func>, others: Others, start: Tables, surfaces: seq<string>)
    requires AllValid(funcs) && PlainNames(types, funcs, start.records)
    requires AfterGroups(types, funcs, others, start, surfaces).Some?
    ensures AllPayloadsLead(others, AfterGroups(types, funcs, others, start, surfaces).value, |start.records|)
  {
    var t, base := AfterGroups(types, funcs, others, start, surfaces).value, |start.records|;
    GroupsExtend(types, funcs, others, start, surfaces);
    assert t.records[..base] == start.records;
    forall r | r in t.records[base..] ensures Usable(start.records, r) {
      var k :| 0 <= k < |t.records[base..]| && t.records[base..][k] == r;
      assert t.records[base + k] == r;
      PlannedIsUsable(types, funcs, start.records, r);
    }
    PayloadsLeadExactly(others, t, base);
  }

  lemma PlannedIsUsable(types: Types, funcs: seq<Func>, declared: seq<Record>, r: Record)
    requires PlainNames(types, funcs, declared) && IsPlanned(types, funcs, r)
    ensures Usable(declared, r)
  {
    var f :| f in funcs && RequestOf(types, f, r);
  }

  // ---- The command case of one function ----

  /** Case `c` of variant `j` names record `i`, which holds the receiver and the parameters of `f`. */
  predicate CaseOf(start: Tables, t: Tables, f: Func, j: nat, c: nat, i: nat) {
    && |start.variants| <= j < |t.variants| && c < |t.variants[j].cases|
    && |start.records| <= i < |t.records| && IsRequest(t.variants[j].cases[c].payload, f, t.records[i])
  }

  lemma CaseStays(start: Tables, t: Tables, u: Tables, f: Func, j: nat, c: nat, i: nat)
    requires CaseOf(start, t, f, j, c, i) && t.records <= u.records && t.variants <= u.variants
    ensures CaseOf(start, u, f, j, c, i)
  {
    assert u.records[i] == t.records[i] && u.variants[j] == t.variants[j];
  }

  lemma CaseInGroup(types: Types, funcs: seq<Func>, others: Others, t: Tables, u: Tables, s: string, plan: Plan,
                    f: Func)
    returns (j: nat, c: nat, i: nat)
    requires Made(types, funcs, others, t, u, s, plan) && f in InSurface(types, funcs, s) && NeedsRequest(types, f)
    ensures CaseOf(t, u, f, j, c, i) && u.records[i] == RequestRecord(f, s, u.records[i].decl.name)
  {
    var fs := InSurface(types, funcs, s);
    j := |t.variants|;
    c :| c < |fs| && fs[c] == f;
    var k := RequestAmong(types, fs, s, plan.requests, |fs|, c);
    i := |t.records| + k;
    assert u.records[i] == Requests(types, fs, s, plan.requests, |fs|)[k];
  }

  /** Every function that needs a request gets a command case and a request record of its own. */
  lemma {:induction false} CaseInGroups(types: Types, funcs: seq<Func>, others: Others, start: Tables,
                                        surfaces: seq<string>, s: string, f: Func)
    returns (j: nat, c: nat, i: nat)
    requires AllValid(funcs) && AfterGroups(types, funcs, others, start, surfaces).Some?
    requires s in surfaces && f in InSurface(types, funcs, s) && NeedsRequest(types, f)
    ensures var t := AfterGroups(types, funcs, others, start, surfaces).value;
            CaseOf(start, t, f, j, c, i) && t.records[i] == RequestRecord(f, s, t.records[i].decl.name)
  {
    var front, last := surfaces[..|surfaces| - 1], surfaces[|surfaces| - 1];
    var u := AfterGroups(types, funcs, others, start, front).value;
    GroupsExtend(types, funcs, others, start, front);
    GroupExtends(types, funcs, others, u, last);
    if s == last {
      GroupMakes(types, funcs, others, u, s);
      var plan := PlanGroup(types, InSurface(types, funcs, s), TakenNames(others, u.records, u.variants)).value;
      j, c, i := CaseInGroup(types, funcs, others, u, AfterGroup(types, funcs, others, u, s).value, s, plan, f);
    } else {
      j, c, i := CaseInGroups(types, funcs, others, start, front, s, f);
      CaseStays(start, u, AfterGroup(types, funcs, others, u, last).value, f, j, c, i);
    }
  }
}
