/** The declaration parsers of the WIT front end, down to whole scopes. */
module Declarations {
  import opened Wrappers
  import opened ScanText
  import opened TypeText
  import opened DeclText
  import opened ScopeText
  import opened Scanners
  import opened TypeParser
  import Naming

  /** A named type; the index is NO_TYPE for a case without payload. */
  datatype Field = Field(name: string, ty: int)

  datatype Decl =
    | PackageDecl(text: string)
    | UseDecl(scope: string, text: string)
    | RecordDecl(name: string, fields: seq<Field>)
    | VariantDecl(name: string, cases: seq<Field>)
    | EnumDecl(name: string, cases: seq<Field>)
    | FlagsDecl(name: string, bits: seq<Field>)
    | AliasDecl(name: string, target: int)
    | FuncDecl(owner: string, name: string, kind: Naming.FuncKind, params: seq<Field>, result: int)
    | InterfaceDecl(name: string)
    | ResourceDecl(name: string)
    | WorldDecl(name: string)
    | WorldItem(world: string, item: ItemKind, text: string)

  predicate KnownType(ty: int, nodes: seq<Node>) {
    NO_TYPE <= ty < |nodes|
  }

  predicate KnownFields(fields: seq<Field>, nodes: seq<Node>) {
    forall f :: f in fields ==> KnownType(f.ty, nodes)
  }

  /** Every type a declaration mentions is a node of the pool. */
  predicate Known(d: Decl, nodes: seq<Node>) {
    match d
    case RecordDecl(_, fields) => KnownFields(fields, nodes)
    case VariantDecl(_, cases) => KnownFields(cases, nodes)
    case EnumDecl(_, cases) => KnownFields(cases, nodes)
    case FlagsDecl(_, bits) => KnownFields(bits, nodes)
    case AliasDecl(_, target) => KnownType(target, nodes)
    case FuncDecl(_, _, _, params, result) => KnownFields(params, nodes) && KnownType(result, nodes)
    case _ => true
  }

  predicate AllKnown(decls: seq<Decl>, nodes: seq<Node>) {
    forall d :: d in decls ==> Known(d, nodes)
  }

  /** The scanner is ahead of where `room` characters were left, and the pool has only grown. */
  ghost predicate Moved(s: Scanner, pool: TypePool, nodes: seq<Node>, room: nat)
    reads s, pool
  {
    s.Valid() && pool.Valid() && Extends(nodes, pool.nodes) && |s.Rest()| <= room
  }

  // ---------------------------------------------------------------- what parsed fields stand for

  function MemberOf(nodes: seq<Node>, f: Field): Member
    requires Ordered(nodes) && KnownType(f.ty, nodes)
  {
    Member(f.name, TypeOf(nodes, f.ty))
  }

  function TypeOf(nodes: seq<Node>, ty: int): Option<Tree>
    requires Ordered(nodes) && KnownType(ty, nodes)
  {
    if ty < 0 then None else Some(TreeAt(nodes, ty))
  }

  function MembersOf(nodes: seq<Node>, fields: seq<Field>): (r: seq<Member>)
    requires Ordered(nodes) && KnownFields(fields, nodes)
    ensures |r| == |fields|
  {
    seq(|fields|, i requires 0 <= i < |fields| => MemberOf(nodes, fields[i]))
  }

  lemma TypeStays(nodes: seq<Node>, more: seq<Node>, ty: int)
    requires Ordered(nodes) && Ordered(more) && Extends(nodes, more) && KnownType(ty, nodes)
    ensures TypeOf(more, ty) == TypeOf(nodes, ty)
  {
    forall j | 0 <= ty <= j < |nodes| ensures more[j] == nodes[j] {
      assert more[..|nodes|][j] == nodes[j];
    }
    TreeDependsAbove(nodes, more, ty);
  }

  /** Parsing on leaves the fields parsed so far as they were. */
  lemma MembersStay(nodes: seq<Node>, more: seq<Node>, fields: seq<Field>)
    requires Ordered(nodes) && Ordered(more) && Extends(nodes, more) && KnownFields(fields, nodes)
    ensures KnownFields(fields, more) && MembersOf(more, fields) == MembersOf(nodes, fields)
  {
    forall f | f in fields ensures KnownType(f.ty, more) && MemberOf(more, f) == MemberOf(nodes, f) {
      TypeStays(nodes, more, f.ty);
    }
  }

  lemma AddMember(fields: seq<Field>, f: Field, nodes: seq<Node>, more: seq<Node>)
    requires Ordered(nodes) && Ordered(more) && Extends(nodes, more)
    requires KnownFields(fields, nodes) && KnownType(f.ty, more)
    ensures KnownFields(fields + [f], more)
    ensures MembersOf(more, fields + [f]) == MembersOf(nodes, fields) + [MemberOf(more, f)]
  {
    MembersStay(nodes, more, fields);
  }

  /** The function a declaration stands for. */
  function FuncOf(nodes: seq<Node>, d: Decl): FuncText
    requires Ordered(nodes) && d.FuncDecl? && Known(d, nodes)
  {
    FuncText(d.name, d.kind.Static?, SignatureOf(nodes, d.params, d.result))
  }

  function SignatureOf(nodes: seq<Node>, params: seq<Field>, result: int): Signature
    requires Ordered(nodes) && KnownFields(params, nodes) && KnownType(result, nodes)
  {
    Signature(MembersOf(nodes, params), TypeOf(nodes, result))
  }

  /** The entry of the grammar a declaration stands for. */
  function EntryOf(nodes: seq<Node>, d: Decl): Entry
    requires Ordered(nodes) && Known(d, nodes)
  {
    match d
    case PackageDecl(text) => PackageEntry(text)
    case UseDecl(scope, text) => UseEntry(scope, text)
    case RecordDecl(name, fields) => TypeEntry("record", name, MembersOf(nodes, fields))
    case VariantDecl(name, cases) => TypeEntry("variant", name, MembersOf(nodes, cases))
    case EnumDecl(name, cases) => TypeEntry("enum", name, MembersOf(nodes, cases))
    case FlagsDecl(name, bits) => TypeEntry("flags", name, MembersOf(nodes, bits))
    case AliasDecl(name, target) => AliasEntry(Member(name, TypeOf(nodes, target)))
    case FuncDecl(owner, name, kind, params, result) => FuncEntry(owner, name, kind, SignatureOf(nodes, params, result))
    case InterfaceDecl(name) => InterfaceEntry(name)
    case ResourceDecl(name) => ResourceEntry(name)
    case WorldDecl(name) => WorldEntry(name)
    case WorldItem(world, item, text) => WorldItemEntry(world, item, text)
  }

  function EntriesOf(nodes: seq<Node>, decls: seq<Decl>): (r: seq<Entry>)
    requires Ordered(nodes) && AllKnown(decls, nodes)
    ensures |r| == |decls|
  {
    seq(|decls|, i requires 0 <= i < |decls| => EntryOf(nodes, decls[i]))
  }

  lemma EntryStays(nodes: seq<Node>, more: seq<Node>, d: Decl)
    requires Ordered(nodes) && Ordered(more) && Extends(nodes, more) && Known(d, nodes)
    ensures Known(d, more) && EntryOf(more, d) == EntryOf(nodes, d)
  {
    match d
    case RecordDecl(_, fields) => MembersStay(nodes, more, fields);
    case VariantDecl(_, cases) => MembersStay(nodes, more, cases);
    case EnumDecl(_, cases) => MembersStay(nodes, more, cases);
    case FlagsDecl(_, bits) => MembersStay(nodes, more, bits);
    case AliasDecl(_, target) => TypeStays(nodes, more, target);
    case FuncDecl(_, _, _, params, result) => MembersStay(nodes, more, params); TypeStays(nodes, more, result);
    case _ =>
  }

  /** Growing the pool keeps every declaration. */
  lemma EntriesStay(nodes: seq<Node>, more: seq<Node>, decls: seq<Decl>)
    requires Ordered(nodes) && Ordered(more) && Extends(nodes, more) && AllKnown(decls, nodes)
    ensures AllKnown(decls, more) && EntriesOf(more, decls) == EntriesOf(nodes, decls)
  {
    forall d | d in decls ensures Known(d, more) && EntryOf(more, d) == EntryOf(nodes, d) {
      EntryStays(nodes, more, d);
    }
  }

  // ---------------------------------------------------------------- the parts of one declaration

  /** One field, case or bit: a name, with its type or optional payload. */
  method ParseMember(s: Scanner, pool: TypePool, shape: Shape) returns (ok: bool, f: Field)
    requires s.Valid() && pool.Valid()
    modifies s, pool
    ensures Moved(s, pool, old(pool.nodes), |old(s.Rest())|)
    ensures ok <==> MemberText(old(s.Rest()), shape).Some?
    ensures ok ==> KnownType(f.ty, pool.nodes)
                   && MemberText(old(s.Rest()), shape) == Some((MemberOf(pool.nodes, f), s.Rest()))
    ensures !ok && shape.Typed? ==> s.Rest() == MemberStop(old(s.Rest()))
  {
    f := Field("", NO_TYPE);
    var name := s.ScanIdent();
    if name == "" {
      return false, f;
    }
    var ty := NO_TYPE;
    match shape {
      case Plain =>
      case Typed =>
        ok, ty := ParseTyping(s, pool);
        if !ok { return; }
      case Payload =>
        ok, ty := ParsePayload(s, pool);
        if !ok { return; }
    }
    return true, Field(name, ty);
  }

  /** The type behind a colon. */
  method ParseTyping(s: Scanner, pool: TypePool) returns (ok: bool, ty: int)
    requires s.Valid() && pool.Valid()
    modifies s, pool
    ensures Moved(s, pool, old(pool.nodes), |old(s.Rest())|)
    ensures ok <==> Expect(old(s.Rest()), ':').Some? && ParseType(Expect(old(s.Rest()), ':').value).Some?
    ensures ok ==> 0 <= ty < |pool.nodes|
                   && ParseType(Expect(old(s.Rest()), ':').value) == Some((TreeAt(pool.nodes, ty), s.Rest()))
    ensures !ok ==> s.Rest() == if Expect(old(s.Rest()), ':').None? then AfterTrivia(old(s.Rest()))
                                else TypeStop(Expect(old(s.Rest()), ':').value)
  {
    ty := NO_TYPE;
    ok := s.MatchChar(':');
    if !ok { return; }
    ty := ParseTypeExpr(s, pool);
    ok := ty >= 0;
  }

  /** A type in parentheses, or nothing. */
  method ParsePayload(s: Scanner, pool: TypePool) returns (ok: bool, ty: int)
    requires s.Valid() && pool.Valid()
    modifies s, pool
    ensures Moved(s, pool, old(pool.nodes), |old(s.Rest())|)
    ensures Expect(old(s.Rest()), '(').None? ==> ok && ty == NO_TYPE && s.Rest() == AfterTrivia(old(s.Rest()))
    ensures Expect(old(s.Rest()), '(').Some? ==>
              var payload := Closing(ParseType(Expect(old(s.Rest()), '(').value), ')');
              && (ok <==> payload.Some?)
              && (ok ==> 0 <= ty < |pool.nodes| && payload == Some((TreeAt(pool.nodes, ty), s.Rest())))
  {
    ty := NO_TYPE;
    ok := s.MatchChar('(');
    if !ok {
      return true, ty;
    }
    ty := ParseTypeExpr(s, pool);
    if ty < 0 {
      return false, ty;
    }
    ok := s.MatchChar(')');
  }

  /** The name and braced body of a record, variant, enum or flags declaration. */
  method ParseBody(s: Scanner, pool: TypePool, shape: Shape, limit: nat)
    returns (ok: bool, name: string, members: seq<Field>)
    requires s.Valid() && pool.Valid()
    modifies s, pool
    ensures Moved(s, pool, old(pool.nodes), |old(s.Rest())|)
    ensures ok <==> BodyText(old(s.Rest()), shape, limit).Some?
    ensures ok ==> KnownFields(members, pool.nodes)
                   && BodyText(old(s.Rest()), shape, limit) == Some(((name, MembersOf(pool.nodes, members)), s.Rest()))
  {
    members := [];
    name := s.ScanIdent();
    if name == "" {
      return false, name, members;
    }
    ok := s.MatchChar('{');
    if !ok { return; }
    ok, members := ParseMembers(s, pool, shape, limit);
  }

  method ParseMembers(s: Scanner, pool: TypePool, shape: Shape, limit: nat) returns (ok: bool, members: seq<Field>)
    requires s.Valid() && pool.Valid()
    modifies s, pool
    ensures Moved(s, pool, old(pool.nodes), |old(s.Rest())|)
    ensures ok <==> MembersText(old(s.Rest()), shape, 0, limit).Some?
    ensures ok ==> KnownFields(members, pool.nodes)
                   && MembersText(old(s.Rest()), shape, 0, limit) == Some((MembersOf(pool.nodes, members), s.Rest()))
  {
    ghost var whole, done := MembersText(s.Rest(), shape, 0, limit), [];
    members := [];
    PrefixTwice([], [], whole);
    while |members| < limit
      invariant Moved(s, pool, old(pool.nodes), |old(s.Rest())|) && StandFor(pool, members, done)
      invariant |members| <= limit && MembersLead(whole, done, s.Rest(), shape, |members|, limit)
    {
      var p;
      p, members, done := ParseMemberRound(s, pool, shape, members, whole, done, limit);
      match p
      case Closed => return true, members;
      case Failed => return false, members;
      case Next =>
    }
    MembersEnd(whole, done, s.Rest(), shape, |members|, limit);
    ok := s.MatchChar('}');
  }

  /** One round of a body: the closing brace, or one more member. */
  method ParseMemberRound(s: Scanner, pool: TypePool, shape: Shape, members: seq<Field>,
                          ghost whole: Parsed<seq<Member>>, ghost done: seq<Member>, ghost limit: nat)
    returns (p: Progress, more: seq<Field>, ghost now: seq<Member>)
    requires s.Valid() && StandFor(pool, members, done) && |members| < limit
    requires MembersLead(whole, done, s.Rest(), shape, |members|, limit)
    modifies s, pool
    ensures Moved(s, pool, old(pool.nodes), |old(s.Rest())|)
    ensures !p.Failed? ==> StandFor(pool, more, now)
    ensures p.Closed? ==> whole == Some((now, s.Rest()))
    ensures p.Failed? ==> whole.None?
    ensures p.Next? ==> |more| == |members| + 1 && MembersLead(whole, now, s.Rest(), shape, |more|, limit)
  {
    ghost var rest := s.Rest();
    MembersEnd(whole, done, rest, shape, |members|, limit);
    s.SkipWhitespace();
    if s.PeekChar() == '}' {
      var _ := s.Advance();
      return Closed, members, done;
    }
    var ok;
    ok, more := ParseNextMember(s, pool, shape, members, done);
    if !ok {
      return Failed, more, done;
    }
    now := OneMoreRead(whole, done, rest, shape, |members|, limit, s.Rest());
    p := Next;
  }

  /** After one more member the rest still completes the list. */
  lemma OneMoreRead(whole: Parsed<seq<Member>>, done: seq<Member>, rest: string, shape: Shape, count: nat, limit: nat,
                    left: string)
    returns (now: seq<Member>)
    requires MembersLead(whole, done, rest, shape, count, limit) && count < limit && Expect(rest, '}').None?
    requires MemberText(AfterTrivia(rest), shape).Some?
    requires left == OptionalComma(MemberText(AfterTrivia(rest), shape).value.1)
    ensures now == done + [MemberText(AfterTrivia(rest), shape).value.0]
    ensures MembersLead(whole, now, left, shape, count + 1, limit)
  {
    var (m, after) := MemberText(AfterTrivia(rest), shape).value;
    MembersGoOn(whole, done, rest, shape, count, limit, m, after);
    now := done + [m];
  }

  /** The fields stand for these members. */
  ghost predicate StandFor(pool: TypePool, fields: seq<Field>, done: seq<Member>)
    reads pool
  {
    pool.Valid() && KnownFields(fields, pool.nodes) && MembersOf(pool.nodes, fields) == done
  }

  method ParseNextMember(s: Scanner, pool: TypePool, shape: Shape, members: seq<Field>, ghost done: seq<Member>)
    returns (ok: bool, more: seq<Field>)
    requires s.Valid() && StandFor(pool, members, done)
    modifies s, pool
    ensures Moved(s, pool, old(pool.nodes), |old(s.Rest())|)
    ensures ok <==> MemberText(old(s.Rest()), shape).Some?
    ensures ok ==> |more| == |members| + 1 && StandFor(pool, more, done + [MemberText(old(s.Rest()), shape).value.0])
                   && s.Rest() == OptionalComma(MemberText(old(s.Rest()), shape).value.1)
  {
    var f;
    ok, f := ParseMember(s, pool, shape);
    if !ok {
      return false, members;
    }
    var _ := s.MatchChar(',');
    AddMember(members, f, old(pool.nodes), pool.nodes);
    return true, members + [f];
  }

  method ParseAlias(s: Scanner, pool: TypePool) returns (ok: bool, d: Decl)
    requires s.Valid() && pool.Valid()
    modifies s, pool
    ensures Moved(s, pool, old(pool.nodes), |old(s.Rest())|)
    ensures ok <==> AliasText(old(s.Rest())).Some?
    ensures ok ==> d.AliasDecl? && KnownType(d.target, pool.nodes)
                   && AliasText(old(s.Rest())) == Some((Member(d.name, TypeOf(pool.nodes, d.target)), s.Rest()))
  {
    d := AliasDecl("", NO_TYPE);
    var name := s.ScanIdent();
    if name == "" {
      return false, d;
    }
    ok := s.MatchChar('=');
    if !ok { return; }
    var target := ParseTypeExpr(s, pool);
    if target < 0 {
      return false, d;
    }
    var _ := s.MatchChar(';');
    return true, AliasDecl(name, target);
  }

  method ParseParamFields(s: Scanner, pool: TypePool) returns (ok: bool, params: seq<Field>)
    requires s.Valid() && pool.Valid()
    modifies s, pool
    ensures Moved(s, pool, old(pool.nodes), |old(s.Rest())|)
    ensures ok <==> ParamListText(old(s.Rest())).Some?
    ensures ok ==> KnownFields(params, pool.nodes)
                   && ParamListText(old(s.Rest())) == Some((MembersOf(pool.nodes, params), s.Rest()))
    ensures !ok ==> s.Rest() == ParamListStop(old(s.Rest()))
  {
    params := [];
    ok := s.MatchChar('(');
    if !ok { return; }
    ok, params := ParseParams(s, pool, MAX_FIELDS);
  }

  method ParseParams(s: Scanner, pool: TypePool, limit: nat) returns (ok: bool, params: seq<Field>)
    requires s.Valid() && pool.Valid()
    modifies s, pool
    ensures Moved(s, pool, old(pool.nodes), |old(s.Rest())|)
    ensures ok <==> ParamsText(old(s.Rest()), 0, limit).Some?
    ensures ok ==> KnownFields(params, pool.nodes)
                   && ParamsText(old(s.Rest()), 0, limit) == Some((MembersOf(pool.nodes, params), s.Rest()))
    ensures !ok ==> s.Rest() == FuncParamsStop(old(s.Rest()), 0, limit)
  {
    params := [];
    ghost var whole, done := ParamsText(s.Rest(), 0, limit), [];
    ghost var stop := FuncParamsStop(s.Rest(), 0, limit);
    PrefixTwice([], [], whole);
    while |params| < limit
      invariant Moved(s, pool, old(pool.nodes), |old(s.Rest())|) && StandFor(pool, params, done)
      invariant |params| <= limit && ParamsLead(whole, done, s.Rest(), |params|, limit)
      invariant FuncParamsStop(s.Rest(), |params|, limit) == stop
    {
      var p;
      p, params, done := ParseParamRound(s, pool, params, whole, done, limit);
      match p
      case Closed => return true, params;
      case Failed => return false, params;
      case Next =>
    }
    ParamsEnd(whole, done, s.Rest(), |params|, limit);
    ok := false;
  }

  /** One round of a parameter list: its end, or one more parameter with the comma behind it. */
  method ParseParamRound(s: Scanner, pool: TypePool, params: seq<Field>,
                         ghost whole: Parsed<seq<Member>>, ghost done: seq<Member>, ghost limit: nat)
    returns (p: Progress, more: seq<Field>, ghost now: seq<Member>)
    requires s.Valid() && StandFor(pool, params, done) && |params| < limit
    requires ParamsLead(whole, done, s.Rest(), |params|, limit)
    modifies s, pool
    ensures Moved(s, pool, old(pool.nodes), |old(s.Rest())|)
    ensures !p.Failed? ==> StandFor(pool, more, now)
    ensures p.Closed? ==> whole == Some((now, s.Rest()))
    ensures p.Failed? ==> whole.None?
    ensures p.Next? ==> |more| == |params| + 1 && ParamsLead(whole, now, s.Rest(), |more|, limit)
    ensures p.Next? ==> FuncParamsStop(old(s.Rest()), |params|, limit) ==
                        FuncParamsStop(s.Rest(), |more|, limit)
    ensures p.Failed? ==> s.Rest() == FuncParamsStop(old(s.Rest()), |params|, limit)
  {
    ghost var rest := s.Rest();
    ParamsEnd(whole, done, rest, |params|, limit);
    more, now := params, done;
    var ok := s.MatchChar(')');
    if ok {
      return Closed, params, done;
    }
    ok, more := ParseParam(s, pool, params, done);
    if !ok {
      return Failed, more, done;
    }
    ghost var (m, after) := MemberText(AfterTrivia(rest), Typed).value;
    ParamsGoOn(whole, done, rest, |params|, limit, m, after);
    now := done + [m];
    p := ScanParamEnd(s);
  }

  /** Behind a parameter: a comma, or the closing parenthesis. */
  method ScanParamEnd(s: Scanner) returns (p: Progress)
    requires s.Valid()
    modifies s
    ensures s.Valid() && |s.Rest()| <= |old(s.Rest())|
    ensures p.Next? <==> Expect(old(s.Rest()), ',').Some?
    ensures p.Next? ==> Expect(old(s.Rest()), ',') == Some(s.Rest())
    ensures p.Closed? ==> Expect(AfterTrivia(old(s.Rest())), ')') == Some(s.Rest())
    ensures p.Failed? ==> Expect(AfterTrivia(old(s.Rest())), ')').None? && s.Rest() == AfterTrivia(old(s.Rest()))
  {
    TriviaIsGone(s.Rest());
    var ok := s.MatchChar(',');
    if ok {
      return Next;
    }
    ok := s.MatchChar(')');
    return if ok then Closed else Failed;
  }

  method ParseParam(s: Scanner, pool: TypePool, params: seq<Field>, ghost done: seq<Member>)
    returns (ok: bool, more: seq<Field>)
    requires s.Valid() && StandFor(pool, params, done)
    modifies s, pool
    ensures Moved(s, pool, old(pool.nodes), |old(s.Rest())|)
    ensures ok <==> MemberText(old(s.Rest()), Typed).Some?
    ensures ok ==> |more| == |params| + 1 && StandFor(pool, more, done + [MemberText(old(s.Rest()), Typed).value.0])
                   && s.Rest() == MemberText(old(s.Rest()), Typed).value.1
    ensures !ok ==> s.Rest() == MemberStop(old(s.Rest()))
  {
    var p;
    ok, p := ParseMember(s, pool, Typed);
    if !ok {
      return false, params;
    }
    AddMember(params, p, old(pool.nodes), pool.nodes);
    return true, params + [p];
  }

  /** The parameters, the result and the semicolon; without an arrow the result is `implied`. */
  method ParseSignature(s: Scanner, pool: TypePool, implied: string) returns (ok: bool, params: seq<Field>, result: int)
    requires s.Valid() && pool.Valid()
    modifies s, pool
    ensures Moved(s, pool, old(pool.nodes), |old(s.Rest())|)
    ensures ok <==> SignatureText(old(s.Rest()), implied).Some?
    ensures ok ==> KnownFields(params, pool.nodes) && KnownType(result, pool.nodes)
                   && SignatureText(old(s.Rest()), implied) == Some((SignatureOf(pool.nodes, params, result), s.Rest()))
    ensures !ok ==> s.Rest() == SignatureStop(old(s.Rest()), implied)
  {
    result := NO_TYPE;
    ok, params := ParseParamFields(s, pool);
    if !ok { return; }
    ghost var nodes := pool.nodes;
    ghost var rest, members := s.Rest(), MembersOf(pool.nodes, params);
    ok, result := ParseResult(s, pool, implied);
    if !ok { return; }
    MembersStay(nodes, pool.nodes, params);
    ghost var end := s.Rest();
    ok := s.MatchChar(';');
    SignatureIs(old(s.Rest()), implied, members, rest, TypeOf(pool.nodes, result), end);
  }

  method ParseResult(s: Scanner, pool: TypePool, implied: string) returns (ok: bool, result: int)
    requires s.Valid() && pool.Valid()
    modifies s, pool
    ensures Moved(s, pool, old(pool.nodes), |old(s.Rest())|)
    ensures ok <==> ResultText(old(s.Rest()), implied).Some?
    ensures ok ==> KnownType(result, pool.nodes)
                   && ResultText(old(s.Rest()), implied) == Some((TypeOf(pool.nodes, result), s.Rest()))
    ensures !ok ==> s.Rest() == ResultStop(old(s.Rest()))
  {
    ok, result := true, NO_TYPE;
    var arrow := s.MatchArrow();
    if arrow {
      result := ParseTypeExpr(s, pool);
      ok := result >= 0;
    } else if implied != "" {
      result := pool.Alloc(NameNode(implied));
    }
  }

  method ScanFuncHead(s: Scanner, scope: Scope) returns (ok: bool, name: string, isStatic: bool)
    requires s.Valid()
    modifies s
    ensures s.Valid() && |s.Rest()| <= |old(s.Rest())|
    ensures ok <==> FuncHead(old(s.Rest()), scope.ResourceScope?).Some?
    ensures ok ==> FuncHead(old(s.Rest()), scope.ResourceScope?) == Some(((name, isStatic), s.Rest()))
                   && |s.Rest()| < |old(s.Rest())|
  {
    isStatic := false;
    name := s.ScanIdent();
    if name == "" {
      return false, name, isStatic;
    }
    ok := s.MatchChar(':');
    if !ok { return; }
    ok, isStatic := ScanFuncKeyword(s, scope);
  }

  method ScanFuncKeyword(s: Scanner, scope: Scope) returns (ok: bool, isStatic: bool)
    requires s.Valid()
    modifies s
    ensures s.Valid() && |s.Rest()| <= |old(s.Rest())|
    ensures ok <==> FuncKeyword(old(s.Rest()), scope.ResourceScope?).Some?
    ensures ok ==> FuncKeyword(old(s.Rest()), scope.ResourceScope?) == Some((isStatic, s.Rest()))
  {
    isStatic := false;
    if scope.ResourceScope? {
      isStatic := s.MatchKeyword("static");
    }
    ok := s.MatchKeyword("func");
  }

  method ParseNamedFunc(s: Scanner, pool: TypePool, scope: Scope, owner: string) returns (ok: bool, d: Decl)
    requires s.Valid() && pool.Valid()
    modifies s, pool
    ensures Moved(s, pool, old(pool.nodes), |old(s.Rest())|)
    ensures ok <==> NamedFuncText(old(s.Rest()), scope.ResourceScope?).Some?
    ensures ok ==> IsFunc(d, scope, owner) && Known(d, pool.nodes)
                   && NamedFuncText(old(s.Rest()), scope.ResourceScope?) == Some((FuncOf(pool.nodes, d), s.Rest()))
    ensures ok ==> |s.Rest()| < |old(s.Rest())|
    ensures !ok && FuncHead(old(s.Rest()), scope.ResourceScope?).Some? ==>
              s.Rest() == SignatureStop(FuncHead(old(s.Rest()), scope.ResourceScope?).value.1, "")
  {
    d := UseDecl("", "");
    var name, isStatic;
    ok, name, isStatic := ScanFuncHead(s, scope);
    if !ok { return; }
    var params, result;
    ok, params, result := ParseSignature(s, pool, "");
    var kind := if isStatic then Naming.Static else if scope.ResourceScope? then Naming.Method else Naming.Free;
    d := FuncDecl(owner, name, kind, params, result);
  }

  predicate IsFunc(d: Decl, scope: Scope, owner: string) {
    && d.FuncDecl? && d.owner == owner && !d.kind.Constructor?
    && (d.kind.Free? <==> !scope.ResourceScope?)
    && (d.kind.Static? ==> scope.ResourceScope?)
  }

  /** Decides on a probe whether a function starts here; only then is the scanner moved. */
  method TryParseNamedFunc(s: Scanner, pool: TypePool, scope: Scope, owner: string) returns (ok: bool, d: Decl)
    requires s.Valid() && pool.Valid()
    modifies s, pool
    ensures Moved(s, pool, old(pool.nodes), |old(s.Rest())|)
    ensures ok <==> NamedFuncText(old(s.Rest()), scope.ResourceScope?).Some?
    ensures ok ==> IsFunc(d, scope, owner) && Known(d, pool.nodes)
                   && NamedFuncText(old(s.Rest()), scope.ResourceScope?) == Some((FuncOf(pool.nodes, d), s.Rest()))
    ensures ok ==> |s.Rest()| < |old(s.Rest())|
    ensures !ok && FuncHead(old(s.Rest()), scope.ResourceScope?).Some? ==>
              s.Rest() == SignatureStop(FuncHead(old(s.Rest()), scope.ResourceScope?).value.1, "")
    ensures FuncHead(old(s.Rest()), scope.ResourceScope?).None? ==>
              s.Rest() == old(s.Rest()) && pool.nodes == old(pool.nodes)
  {
    d := UseDecl("", "");
    var probe := new Scanner.Copy(s);
    var name, isStatic;
    ok, name, isStatic := ScanFuncHead(probe, scope);
    if !ok { return; }
    ok, d := ParseNamedFunc(s, pool, scope, owner);
  }

  /** A constructor without a result returns its resource. */
  method TryParseConstructor(s: Scanner, pool: TypePool, owner: string) returns (ok: bool, d: Decl)
    requires s.Valid() && pool.Valid()
    modifies s, pool
    ensures Moved(s, pool, old(pool.nodes), |old(s.Rest())|)
    ensures ok <==> ConstructorText(old(s.Rest()), owner).Some?
    ensures ok ==> d.FuncDecl? && d.owner == owner && d.kind.Constructor? && Known(d, pool.nodes)
                   && ConstructorText(old(s.Rest()), owner) ==
                      Some((SignatureOf(pool.nodes, d.params, d.result), s.Rest()))
    ensures ok ==> |s.Rest()| < |old(s.Rest())| && d.name == "constructor"
    ensures !ok && AfterKeyword(old(s.Rest()), "constructor").0 ==>
              s.Rest() == SignatureStop(AfterKeyword(old(s.Rest()), "constructor").1, owner)
    ensures !AfterKeyword(old(s.Rest()), "constructor").0 ==> s.Rest() == old(s.Rest()) && pool.nodes == old(pool.nodes)
  {
    d := UseDecl("", "");
    var probe := new Scanner.Copy(s);
    ok := probe.MatchKeyword("constructor");
    if !ok { return; }
    var _ := s.MatchKeyword("constructor");
    var params, result;
    ok, params, result := ParseSignature(s, pool, owner);
    d := FuncDecl(owner, "constructor", Naming.Constructor, params, result);
  }

  // ---------------------------------------------------------------- scopes

  /** What has been declared so far, in order. */
  class Registry {
    var decls: seq<Decl>

    constructor ()
      ensures decls == []
    {
      decls := [];
    }

    method Add(d: Decl)
      modifies this
      ensures decls == old(decls) + [d]
    {
      decls := decls + [d];
    }
  }

  /** A scanner, a pool and declarations that mention only nodes of the pool. */
  ghost predicate Ready(s: Scanner, pool: TypePool, reg: Registry)
    reads s, pool, reg
  {
    s.Valid() && pool.Valid() && AllKnown(reg.decls, pool.nodes)
  }

  /** The entries declared so far. */
  ghost function Entries(pool: TypePool, reg: Registry): seq<Entry>
    requires pool.Valid() && AllKnown(reg.decls, pool.nodes)
    reads pool, reg
  {
    EntriesOf(pool.nodes, reg.decls)
  }

  /** Everything declared stays. */
  ghost predicate Declared(s: Scanner, pool: TypePool, reg: Registry, nodes: seq<Node>, decls: seq<Decl>, room: nat)
    reads s, pool, reg
  {
    Moved(s, pool, nodes, room) && decls <= reg.decls && AllKnown(reg.decls, pool.nodes)
  }

  datatype Progress = Next | Closed | Failed

  /** The parser does what the grammar says: `before` has been declared, and then what it reads. */
  ghost predicate Outcome(v: Verdict, p: Progress, s: Scanner, pool: TypePool, reg: Registry, before: seq<Entry>)
    reads s, pool, reg
  {
    && Ready(s, pool, reg)
    && match v
       case Reads(items, rest) => p.Next? && s.Rest() == rest && Entries(pool, reg) == before + items
       case Closes(rest) => p.Closed? && s.Rest() == rest && Entries(pool, reg) == before
       case Refuses => p.Failed?
  }

  /** The raw text up to a semicolon, which must come before `limit` characters. */
  method ReadRaw(s: Scanner, limit: nat) returns (ok: bool, raw: string)
    requires s.Valid()
    modifies s
    ensures s.Valid() && |s.Rest()| <= |old(s.Rest())|
    ensures ok <==> RawText(old(s.Rest()), limit).Some?
    ensures ok ==> RawText(old(s.Rest()), limit) == Some((raw, s.Rest()))
  {
    s.SkipWhitespace();
    raw := TakeRaw(s, limit);
    ok := s.MatchChar(';');
  }

  method TakeRaw(s: Scanner, limit: nat) returns (raw: string)
    requires s.Valid()
    modifies s
    ensures s.Valid() && |s.Rest()| <= |old(s.Rest())|
    ensures var t := old(s.Rest()); var n := RawLength(t, limit); raw == t[..n] && s.Rest() == t[n..]
  {
    raw := "";
    ghost var t := s.Rest();
    while !s.Eof() && s.PeekChar() != ';' && |raw| < limit
      invariant s.Valid() && RawLeads(t, raw, s.Rest(), limit)
      decreases |s.Rest()|
    {
      RawGoesOn(t, raw, s.Rest(), limit);
      var c := s.Advance();
      raw := raw + [c];
    }
    RawEnds(t, raw, s.Rest(), limit);
  }

  /** What has been read of a raw text, and what is left of it. */
  predicate RawLeads(t: string, raw: string, rest: string, limit: nat) {
    t == raw + rest && |raw| <= limit && RawLength(t, limit) == |raw| + RawLength(rest, limit - |raw|)
  }

  lemma RawGoesOn(t: string, raw: string, rest: string, limit: nat)
    requires RawLeads(t, raw, rest, limit) && rest != [] && rest[0] != ';' && |raw| < limit
    ensures RawLeads(t, raw + [rest[0]], rest[1..], limit)
  {
    assert rest == [rest[0]] + rest[1..];
  }

  lemma RawEnds(t: string, raw: string, rest: string, limit: nat)
    requires RawLeads(t, raw, rest, limit) && (rest == [] || rest[0] == ';' || |raw| == limit)
    ensures RawLength(t, limit) == |raw| && t[..|raw|] == raw && t[|raw|..] == rest
  {
  }

  method Record(reg: Registry, pool: TypePool, s: Scanner, d: Decl)
    requires Ready(s, pool, reg) && Known(d, pool.nodes)
    modifies reg
    ensures reg.decls == old(reg.decls) + [d] && AllKnown(reg.decls, pool.nodes)
    ensures Entries(pool, reg) == old(Entries(pool, reg)) + [EntryOf(pool.nodes, d)]
  {
    reg.Add(d);
  }

  /** The rest of the scope completes what has been read to the whole of it. */
  predicate ScopeLeads(whole: Verdict, done: seq<Entry>, rest: string, scope: Scope, name: string, interface: string) {
    whole == Joined(done, ScopeItems(rest, scope, name, interface))
  }

  /** What one round does to the whole scope. */
  lemma ScopeGoesOn(whole: Verdict, before: seq<Entry>, done: seq<Entry>, rest: string, scope: Scope, name: string,
                    interface: string, p: Progress, s: Scanner, pool: TypePool, reg: Registry)
    returns (now: seq<Entry>)
    requires rest != [] && ScopeLeads(whole, done, rest, scope, name, interface) && Ready(s, pool, reg)
    requires Outcome(RoundText(rest, scope, name, interface), p, s, pool, reg, before + done)
    ensures p.Closed? ==> Outcome(whole, Next, s, pool, reg, before)
    ensures p.Failed? ==> Outcome(whole, Failed, s, pool, reg, before)
    ensures p.Next? ==> ScopeLeads(whole, now, s.Rest(), scope, name, interface)
                        && Entries(pool, reg) == before + now
  {
    var round := RoundText(rest, scope, name, interface);
    now := done;
    if round.Reads? {
      now := done + round.items;
      JoinedTwice(done, round.items, ScopeItems(round.rest, scope, name, interface));
      assert before + now == before + done + round.items;
    }
  }

  lemma JoinedTwice(a: seq<Entry>, b: seq<Entry>, t: Verdict)
    ensures Joined(a, Joined(b, t)) == Joined(a + b, t)
    ensures Joined([], t) == t
  {
    if t.Reads? {
      assert [] + t.items == t.items;
      assert a + (b + t.items) == a + b + t.items;
    }
  }

  /**
   * Parses the items of a scope: exactly those of the grammar, in order. A nested scope succeeds only
   * behind its closing brace, the whole source only at its end.
   */
  method ParseScope(s: Scanner, pool: TypePool, reg: Registry, scope: Scope, name: string, interfaceName: string)
    returns (ok: bool)
    requires Ready(s, pool, reg)
    modifies s, pool, reg
    ensures Declared(s, pool, reg, old(pool.nodes), old(reg.decls), |old(s.Rest())|)
    ensures ok && scope.TopScope? ==> s.Rest() == []
    ensures ok && !scope.TopScope? ==> s.pos > 0 && s.src[s.pos - 1] == '}' && |s.Rest()| < |old(s.Rest())|
    ensures Outcome(ScopeItems(old(s.Rest()), scope, name, interfaceName), if ok then Next else Failed, s, pool, reg,
                    old(Entries(pool, reg)))
    decreases |s.Rest()|, 7
  {
    ghost var whole, done := ScopeItems(s.Rest(), scope, name, interfaceName), [];
    ghost var before := Entries(pool, reg);
    JoinedTwice([], [], whole);
    while !s.Eof()
      invariant Declared(s, pool, reg, old(pool.nodes), old(reg.decls), |old(s.Rest())|)
      invariant InScope(whole, before, done, s, pool, reg, scope, name, interfaceName)
      decreases |s.Rest()|
    {
      var progress;
      progress, done := ParseScopeRound(s, pool, reg, scope, name, interfaceName, whole, before, done);
      match progress
      case Closed => return true;
      case Failed => return false;
      case Next =>
    }
    ScopeEnds(whole, before, done, s, pool, reg, scope, name, interfaceName);
    ok := scope.TopScope?;
  }

  lemma ScopeEnds(whole: Verdict, before: seq<Entry>, done: seq<Entry>, s: Scanner, pool: TypePool, reg: Registry,
                  scope: Scope, name: string, interface: string)
    requires InScope(whole, before, done, s, pool, reg, scope, name, interface) && s.Rest() == []
    ensures Outcome(whole, if scope.TopScope? then Next else Failed, s, pool, reg, before)
  {
    assert done + [] == done;
  }

  /** Everything in front of the scanner has been declared. */
  ghost predicate InScope(whole: Verdict, before: seq<Entry>, done: seq<Entry>, s: Scanner, pool: TypePool,
                          reg: Registry, scope: Scope, name: string, interface: string)
    reads s, pool, reg
  {
    && Ready(s, pool, reg)
    && ScopeLeads(whole, done, s.Rest(), scope, name, interface)
    && Entries(pool, reg) == before + done
  }

  method ParseScopeRound(s: Scanner, pool: TypePool, reg: Registry, scope: Scope, name: string, interfaceName: string,
                         ghost whole: Verdict, ghost before: seq<Entry>, ghost done: seq<Entry>)
    returns (p: Progress, ghost now: seq<Entry>)
    requires Ready(s, pool, reg) && s.Rest() != []
    requires InScope(whole, before, done, s, pool, reg, scope, name, interfaceName)
    modifies s, pool, reg
    ensures Declared(s, pool, reg, old(pool.nodes), old(reg.decls), |old(s.Rest())|)
    ensures !p.Failed? ==> |s.Rest()| < |old(s.Rest())|
    ensures p.Closed? ==> !scope.TopScope? && s.pos > 0 && s.src[s.pos - 1] == '}'
    ensures p.Next? ==> InScope(whole, before, now, s, pool, reg, scope, name, interfaceName)
    ensures !p.Next? ==> Outcome(whole, if p.Closed? then Next else Failed, s, pool, reg, before)
    decreases |s.Rest()|, 6
  {
    p := ParseItem(s, pool, reg, scope, name, interfaceName);
    now := ScopeGoesOn(whole, before, done, old(s.Rest()), scope, name, interfaceName, p, s, pool, reg);
  }

  /** One round of a scope: it closes the scope, fails, or declares its items and leaves strictly less to read. */
  method ParseItem(s: Scanner, pool: TypePool, reg: Registry, scope: Scope, name: string, interfaceName: string)
    returns (p: Progress)
    requires Ready(s, pool, reg) && s.Rest() != []
    modifies s, pool, reg
    ensures Declared(s, pool, reg, old(pool.nodes), old(reg.decls), |old(s.Rest())|)
    ensures !p.Failed? ==> |s.Rest()| < |old(s.Rest())|
    ensures p.Closed? ==> !scope.TopScope? && s.pos > 0 && s.src[s.pos - 1] == '}'
    ensures Outcome(RoundText(old(s.Rest()), scope, name, interfaceName), p, s, pool, reg, old(Entries(pool, reg)))
    decreases |s.Rest()|, 5
  {
    SkipToItem(s);
    if s.Eof() {
      return Next;
    }
    if !scope.TopScope? && s.PeekChar() == '}' {
      PassBrace(s);
      return Closed;
    }
    p := ParseDeclaration(s, pool, reg, scope, name, interfaceName);
  }

  method SkipToItem(s: Scanner)
    requires s.Valid()
    modifies s
    ensures s.Valid() && s.Rest() == AfterTrivia(old(s.Rest())) && AfterTrivia(s.Rest()) == s.Rest()
  {
    TriviaIsGone(s.Rest());
    var _ := s.ConsumeLeadingMetadata();
    s.SkipWhitespace();
  }

  method PassBrace(s: Scanner)
    requires s.Valid() && s.Rest() != [] && s.Rest()[0] == '}'
    modifies s
    ensures s.Valid() && s.Rest() == old(s.Rest())[1..] && s.pos > 0 && s.src[s.pos - 1] == '}'
  {
    var _ := s.Advance();
  }

  /** What starts at a character that is neither trivia nor the end of the scope. */
  method ParseDeclaration(s: Scanner, pool: TypePool, reg: Registry, scope: Scope, name: string, interfaceName: string)
    returns (p: Progress)
    requires Ready(s, pool, reg) && s.Rest() != [] && AfterTrivia(s.Rest()) == s.Rest()
    modifies s, pool, reg
    ensures Declared(s, pool, reg, old(pool.nodes), old(reg.decls), |old(s.Rest())|)
    ensures !p.Closed? && (p.Next? ==> |s.Rest()| < |old(s.Rest())|)
    ensures Outcome(DeclarationText(old(s.Rest()), scope, name, interfaceName), p, s, pool, reg,
                    old(Entries(pool, reg)))
    decreases |s.Rest()|, 4
  {
    var ok, _ := ParseFunction(s, pool, reg, scope, name);
    if ok {
      return Next;
    }
    p := ParseKeywordOrPass(s, pool, reg, interfaceName);
  }

  /** What a keyword introduces; any other character is passed over. */
  method ParseKeywordOrPass(s: Scanner, pool: TypePool, reg: Registry, interfaceName: string) returns (p: Progress)
    requires Ready(s, pool, reg)
    modifies s, pool, reg
    ensures Declared(s, pool, reg, old(pool.nodes), old(reg.decls), |old(s.Rest())|)
    ensures !p.Closed? && (p.Next? && old(s.Rest()) != [] ==> |s.Rest()| < |old(s.Rest())|)
    ensures Outcome(KeywordOrPassText(AfterTrivia(old(s.Rest())), interfaceName), p, s, pool, reg,
                    old(Entries(pool, reg)))
    decreases |s.Rest()|, 3
  {
    p := ParseKeyword(s, pool, reg, interfaceName);
    if p.Closed? {
      var _ := s.Advance();
      p := Next;
    }
  }

  /** A constructor or a function, in the scopes that allow them. */
  method ParseFunction(s: Scanner, pool: TypePool, reg: Registry, scope: Scope, name: string)
    returns (ok: bool, d: Decl)
    requires Ready(s, pool, reg)
    modifies s, pool, reg
    ensures Declared(s, pool, reg, old(pool.nodes), old(reg.decls), |old(s.Rest())|)
    ensures ok ==> |s.Rest()| < |old(s.Rest())| && reg.decls == old(reg.decls) + [d] && d.FuncDecl?
    ensures ok ==> !scope.TopScope? && (d.kind.Free? <==> scope.InterfaceScope?)
    ensures Outcome(FunctionText(old(s.Rest()), scope, name), if ok then Next else Closed, s, pool, reg,
                    old(Entries(pool, reg)))
  {
    ok, d := false, UseDecl("", "");
    if scope.ResourceScope? {
      ok, d := TryParseConstructor(s, pool, name);
    }
    if !ok && !scope.TopScope? {
      ok, d := TryParseNamedFunc(s, pool, scope, name);
    }
    EntriesStay(old(pool.nodes), pool.nodes, reg.decls);
    if ok {
      Record(reg, pool, s, d);
    }
  }

  /** What a keyword introduces; no keyword at all is reported as `Closed`. */
  method ParseKeyword(s: Scanner, pool: TypePool, reg: Registry, interfaceName: string) returns (p: Progress)
    requires Ready(s, pool, reg)
    modifies s, pool, reg
    ensures Declared(s, pool, reg, old(pool.nodes), old(reg.decls), |old(s.Rest())|)
    ensures p.Next? ==> |s.Rest()| < |old(s.Rest())|
    ensures Outcome(KeywordText(AfterTrivia(old(s.Rest())), interfaceName), p, s, pool, reg,
                    old(Entries(pool, reg)))
    decreases |s.Rest()|, 2
  {
    TriviaIsGone(s.Rest());
    p := ParsePackageOrUse(s, pool, reg, interfaceName);
    if p.Closed? {
      p := ParseWorldOrInterface(s, pool, reg);
      if p.Closed? {
        p := ParseSkippedOrType(s, pool, reg, interfaceName);
      }
    }
  }

  method ParseSkippedOrType(s: Scanner, pool: TypePool, reg: Registry, interfaceName: string) returns (p: Progress)
    requires Ready(s, pool, reg)
    modifies s, pool, reg
    ensures Declared(s, pool, reg, old(pool.nodes), old(reg.decls), |old(s.Rest())|)
    ensures p.Next? ==> |s.Rest()| < |old(s.Rest())|
    ensures Outcome(SkippedOrTypeText(AfterTrivia(old(s.Rest())), interfaceName), p, s, pool, reg,
                    old(Entries(pool, reg)))
    decreases |s.Rest()|, 1
  {
    TriviaIsGone(s.Rest());
    var ok := SkipTopLevelItem(s);
    if ok {
      return Next;
    }
    p := ParseTypeKeyword(s, pool, reg, interfaceName);
  }

  method ParsePackageOrUse(s: Scanner, pool: TypePool, reg: Registry, interfaceName: string) returns (p: Progress)
    requires Ready(s, pool, reg)
    modifies s, pool, reg
    ensures Declared(s, pool, reg, old(pool.nodes), old(reg.decls), |old(s.Rest())|)
    ensures p.Next? ==> |s.Rest()| < |old(s.Rest())|
    ensures Outcome(PackageOrUseText(AfterTrivia(old(s.Rest())), interfaceName), p, s, pool, reg,
                    old(Entries(pool, reg)))
  {
    TriviaIsGone(s.Rest());
    var ok := s.MatchKeyword("package");
    if ok { p := ParsePackage(s, pool, reg); return; }
    ok := s.MatchKeyword("use");
    if ok { p := ParseUse(s, pool, reg, interfaceName); return; }
    p := Closed;
  }

  method ParseWorldOrInterface(s: Scanner, pool: TypePool, reg: Registry) returns (p: Progress)
    requires Ready(s, pool, reg)
    modifies s, pool, reg
    ensures Declared(s, pool, reg, old(pool.nodes), old(reg.decls), |old(s.Rest())|)
    ensures p.Next? ==> |s.Rest()| < |old(s.Rest())|
    ensures Outcome(WorldOrInterfaceText(AfterTrivia(old(s.Rest()))), p, s, pool, reg, old(Entries(pool, reg)))
    decreases |s.Rest()|, 0
  {
    TriviaIsGone(s.Rest());
    var ok := s.MatchKeyword("world");
    if ok { p := ParseWorld(s, pool, reg); return; }
    ok := s.MatchKeyword("interface");
    if ok { p := ParseInterface(s, pool, reg); return; }
    p := Closed;
  }

  /** An import or export outside a world is skipped to its semicolon or over its braces. */
  method SkipTopLevelItem(s: Scanner) returns (ok: bool)
    requires s.Valid()
    modifies s
    ensures s.Valid() && |s.Rest()| <= |old(s.Rest())|
    ensures SkippedItemText(AfterTrivia(old(s.Rest()))) == if ok then Reads([], s.Rest()) else Closes(s.Rest())
    ensures ok ==> |s.Rest()| < |old(s.Rest())|
  {
    TriviaIsGone(s.Rest());
    ok := s.MatchKeyword("export");
    if !ok {
      ok := s.MatchKeyword("import");
    }
    if ok {
      SkipRest(s);
    }
  }

  method SkipRest(s: Scanner)
    requires s.Valid()
    modifies s
    ensures s.Valid() && s.Rest() == SkippedText(old(s.Rest()))
  {
    s.AdvanceWhile(c => c != '{' && c != ';');
    TriviaIsGone(s.Rest());
    var ended := s.MatchChar(';');
    if !ended {
      s.SkipBracedBlock();
    }
  }

  method ParsePackage(s: Scanner, pool: TypePool, reg: Registry) returns (p: Progress)
    requires Ready(s, pool, reg)
    modifies s, pool, reg
    ensures Declared(s, pool, reg, old(pool.nodes), old(reg.decls), |old(s.Rest())|)
    ensures Outcome(PackageText(old(s.Rest())), p, s, pool, reg, old(Entries(pool, reg)))
  {
    var ok, raw := ReadRaw(s, MAX_PACKAGE - 1);
    if !ok || Trim(raw) == "" {
      return Failed;
    }
    Record(reg, pool, s, PackageDecl(Trim(raw)));
    return Next;
  }

  /** At the top level a use declaration is refused. */
  method ParseUse(s: Scanner, pool: TypePool, reg: Registry, interfaceName: string) returns (p: Progress)
    requires Ready(s, pool, reg)
    modifies s, pool, reg
    ensures Declared(s, pool, reg, old(pool.nodes), old(reg.decls), |old(s.Rest())|)
    ensures Outcome(UseText(old(s.Rest()), interfaceName), p, s, pool, reg, old(Entries(pool, reg)))
  {
    if interfaceName == "" {
      return Failed;
    }
    var ok, raw := ReadRaw(s, MAX_RAW - 1);
    if !ok {
      return Failed;
    }
    Record(reg, pool, s, UseDecl(interfaceName, raw));
    return Next;
  }

  method ParseTypeKeyword(s: Scanner, pool: TypePool, reg: Registry, interfaceName: string) returns (p: Progress)
    requires Ready(s, pool, reg)
    modifies s, pool, reg
    ensures Declared(s, pool, reg, old(pool.nodes), old(reg.decls), |old(s.Rest())|)
    ensures p.Next? ==> |s.Rest()| < |old(s.Rest())|
    ensures Outcome(TypeKeywordText(AfterTrivia(old(s.Rest())), interfaceName), p, s, pool, reg,
                    old(Entries(pool, reg)))
    decreases |s.Rest()|, 0
  {
    TriviaIsGone(s.Rest());
    p := ParseBodyKeyword(s, pool, reg);
    if !p.Closed? { return; }
    var ok := s.MatchKeyword("type");
    if ok { p := ParseTypeAlias(s, pool, reg); return; }
    ok := s.MatchKeyword("resource");
    if ok { p := ParseResource(s, pool, reg, interfaceName); return; }
    p := Closed;
  }

  method ParseBodyKeyword(s: Scanner, pool: TypePool, reg: Registry) returns (p: Progress)
    requires Ready(s, pool, reg)
    modifies s, pool, reg
    ensures Declared(s, pool, reg, old(pool.nodes), old(reg.decls), |old(s.Rest())|)
    ensures p.Next? ==> |s.Rest()| < |old(s.Rest())|
    ensures Outcome(BodyKeywordText(AfterTrivia(old(s.Rest()))), p, s, pool, reg, old(Entries(pool, reg)))
  {
    TriviaIsGone(s.Rest());
    var ok := s.MatchKeyword("record");
    if ok { p := ParseTypeBody(s, pool, reg, "record", Typed, MAX_FIELDS); return; }
    ok := s.MatchKeyword("variant");
    if ok { p := ParseTypeBody(s, pool, reg, "variant", Payload, MAX_CASES); return; }
    ok := s.MatchKeyword("enum");
    if ok { p := ParseTypeBody(s, pool, reg, "enum", Plain, MAX_CASES); return; }
    ok := s.MatchKeyword("flags");
    if ok { p := ParseTypeBody(s, pool, reg, "flags", Plain, MAX_CASES); return; }
    p := Closed;
  }

  method ParseTypeAlias(s: Scanner, pool: TypePool, reg: Registry) returns (p: Progress)
    requires Ready(s, pool, reg)
    modifies s, pool, reg
    ensures Declared(s, pool, reg, old(pool.nodes), old(reg.decls), |old(s.Rest())|)
    ensures Outcome(TypeAliasText(old(s.Rest())), p, s, pool, reg, old(Entries(pool, reg)))
  {
    var ok, d := ParseAlias(s, pool);
    EntriesStay(old(pool.nodes), pool.nodes, reg.decls);
    if !ok {
      return Failed;
    }
    Record(reg, pool, s, d);
    return Next;
  }

  predicate IsTypeKeyword(keyword: string) {
    keyword == "record" || keyword == "variant" || keyword == "enum" || keyword == "flags"
  }

  function TypeDecl(keyword: string, name: string, members: seq<Field>): Decl
    requires IsTypeKeyword(keyword)
  {
    if keyword == "record" then RecordDecl(name, members)
    else if keyword == "variant" then VariantDecl(name, members)
    else if keyword == "enum" then EnumDecl(name, members)
    else FlagsDecl(name, members)
  }

  method ParseTypeBody(s: Scanner, pool: TypePool, reg: Registry, keyword: string, shape: Shape, limit: nat)
    returns (p: Progress)
    requires Ready(s, pool, reg) && IsTypeKeyword(keyword)
    modifies s, pool, reg
    ensures Declared(s, pool, reg, old(pool.nodes), old(reg.decls), |old(s.Rest())|)
    ensures Outcome(TypeBodyText(old(s.Rest()), keyword, shape, limit), p, s, pool, reg, old(Entries(pool, reg)))
  {
    var ok, name, members := ParseBody(s, pool, shape, limit);
    EntriesStay(old(pool.nodes), pool.nodes, reg.decls);
    if !ok {
      return Failed;
    }
    Record(reg, pool, s, TypeDecl(keyword, name, members));
    return Next;
  }

  method ParseInterface(s: Scanner, pool: TypePool, reg: Registry) returns (p: Progress)
    requires Ready(s, pool, reg)
    modifies s, pool, reg
    ensures Declared(s, pool, reg, old(pool.nodes), old(reg.decls), |old(s.Rest())|) && !p.Closed?
    ensures Outcome(InterfaceText(old(s.Rest())), p, s, pool, reg, old(Entries(pool, reg)))
    decreases |s.Rest()|, 4
  {
    var name := s.ScanIdent();
    if name == "" {
      return Failed;
    }
    p := ParseInlineInterface(s, pool, reg, name);
  }

  /** The braced items of an interface whose name is known. */
  method ParseInlineInterface(s: Scanner, pool: TypePool, reg: Registry, name: string) returns (p: Progress)
    requires Ready(s, pool, reg)
    modifies s, pool, reg
    ensures Declared(s, pool, reg, old(pool.nodes), old(reg.decls), |old(s.Rest())|) && !p.Closed?
    ensures Outcome(InlineInterfaceText(old(s.Rest()), name), p, s, pool, reg, old(Entries(pool, reg)))
    decreases |s.Rest()|, 3
  {
    Record(reg, pool, s, InterfaceDecl(name));
    var ok := s.MatchChar('{');
    if ok {
      ghost var v := ScopeItems(s.Rest(), InterfaceScope, name, name);
      ok := ParseScope(s, pool, reg, InterfaceScope, name, name);
      OutcomeBehind(v, if ok then Next else Failed, s, pool, reg, old(Entries(pool, reg)), [InterfaceEntry(name)]);
    }
    p := if ok then Next else Failed;
  }

  method ParseResource(s: Scanner, pool: TypePool, reg: Registry, interfaceName: string) returns (p: Progress)
    requires Ready(s, pool, reg)
    modifies s, pool, reg
    ensures Declared(s, pool, reg, old(pool.nodes), old(reg.decls), |old(s.Rest())|) && !p.Closed?
    ensures Outcome(ResourceText(old(s.Rest()), interfaceName), p, s, pool, reg, old(Entries(pool, reg)))
    decreases |s.Rest()|, 4
  {
    var name := s.ScanIdent();
    if name == "" {
      return Failed;
    }
    Record(reg, pool, s, ResourceDecl(name));
    ghost var v := ResourceBodyText(s.Rest(), name, interfaceName);
    p := ParseResourceBody(s, pool, reg, name, interfaceName);
    OutcomeBehind(v, p, s, pool, reg, old(Entries(pool, reg)), [ResourceEntry(name)]);
  }

  /** The entries before and the ones read first make up what was declared before the rest. */
  lemma OutcomeBehind(v: Verdict, p: Progress, s: Scanner, pool: TypePool, reg: Registry, before: seq<Entry>,
                      first: seq<Entry>)
    requires Outcome(v, p, s, pool, reg, before + first) && !v.Closes?
    ensures Outcome(Joined(first, v), p, s, pool, reg, before)
  {
    if v.Reads? {
      assert before + (first + v.items) == before + first + v.items;
    }
  }

  method ParseResourceBody(s: Scanner, pool: TypePool, reg: Registry, name: string, interfaceName: string)
    returns (p: Progress)
    requires Ready(s, pool, reg)
    modifies s, pool, reg
    ensures Declared(s, pool, reg, old(pool.nodes), old(reg.decls), |old(s.Rest())|) && !p.Closed?
    ensures Outcome(ResourceBodyText(old(s.Rest()), name, interfaceName), p, s, pool, reg, old(Entries(pool, reg)))
    decreases |s.Rest()|, 3
  {
    var ok := s.MatchChar(';');
    if ok {
      return Next;
    }
    p := ParseResourceItems(s, pool, reg, name, interfaceName);
  }

  method ParseResourceItems(s: Scanner, pool: TypePool, reg: Registry, name: string, interfaceName: string)
    returns (p: Progress)
    requires Ready(s, pool, reg)
    modifies s, pool, reg
    ensures Declared(s, pool, reg, old(pool.nodes), old(reg.decls), |old(s.Rest())|) && !p.Closed?
    ensures Outcome(ResourceItemsText(old(s.Rest()), name, interfaceName), p, s, pool, reg, old(Entries(pool, reg)))
    decreases |s.Rest()|, 2
  {
    var ok := s.MatchChar('{');
    if ok {
      ok := ParseScope(s, pool, reg, ResourceScope, name, interfaceName);
    }
    if ok {
      var _ := s.MatchTrailingSemicolon();
    }
    p := if ok then Next else Failed;
  }

  method ParseWorld(s: Scanner, pool: TypePool, reg: Registry) returns (p: Progress)
    requires Ready(s, pool, reg)
    modifies s, pool, reg
    ensures Declared(s, pool, reg, old(pool.nodes), old(reg.decls), |old(s.Rest())|) && !p.Closed?
    ensures Outcome(WorldText(old(s.Rest())), p, s, pool, reg, old(Entries(pool, reg)))
    decreases |s.Rest()|, 4
  {
    var name := s.ScanIdent();
    if name == "" {
      return Failed;
    }
    Record(reg, pool, s, WorldDecl(name));
    ghost var v := WorldBodyText(s.Rest(), name);
    p := ParseWorldBody(s, pool, reg, name);
    OutcomeBehind(v, p, s, pool, reg, old(Entries(pool, reg)), [WorldEntry(name)]);
  }

  method ParseWorldBody(s: Scanner, pool: TypePool, reg: Registry, name: string) returns (p: Progress)
    requires Ready(s, pool, reg)
    modifies s, pool, reg
    ensures Declared(s, pool, reg, old(pool.nodes), old(reg.decls), |old(s.Rest())|) && !p.Closed?
    ensures Outcome(WorldBodyText(old(s.Rest()), name), p, s, pool, reg, old(Entries(pool, reg)))
    decreases |s.Rest()|, 3
  {
    TriviaIsGone(s.Rest());
    var ok := s.MatchChar(';');
    if ok {
      return Next;
    }
    ok := s.MatchChar('{');
    if !ok {
      return Failed;
    }
    p := ParseWorldItems(s, pool, reg, name);
  }

  /** The items of a world, exactly those of the grammar, up to its closing brace. */
  method ParseWorldItems(s: Scanner, pool: TypePool, reg: Registry, world: string) returns (p: Progress)
    requires Ready(s, pool, reg)
    modifies s, pool, reg
    ensures Declared(s, pool, reg, old(pool.nodes), old(reg.decls), |old(s.Rest())|) && !p.Closed?
    ensures Outcome(WorldItemsText(old(s.Rest()), world), p, s, pool, reg, old(Entries(pool, reg)))
    decreases |s.Rest()|, 5
  {
    ghost var whole, done := WorldItemsText(s.Rest(), world), [];
    ghost var before := Entries(pool, reg);
    JoinedTwice([], [], whole);
    while !s.Eof()
      invariant Declared(s, pool, reg, old(pool.nodes), old(reg.decls), |old(s.Rest())|)
      invariant WorldLeads(whole, done, s.Rest(), world)
      invariant Entries(pool, reg) == before + done
      decreases |s.Rest()|
    {
      ghost var rest := s.Rest();
      var progress := ParseWorldRound(s, pool, reg, world);
      done := WorldGoesOn(whole, before, done, rest, world, progress, s, pool, reg);
      match progress
      case Closed => return Next;
      case Failed => return Failed;
      case Next =>
    }
    p := Failed;
  }

  predicate WorldLeads(whole: Verdict, done: seq<Entry>, rest: string, world: string) {
    whole == Joined(done, WorldItemsText(rest, world))
  }

  lemma WorldGoesOn(whole: Verdict, before: seq<Entry>, done: seq<Entry>, rest: string, world: string,
                    p: Progress, s: Scanner, pool: TypePool, reg: Registry)
    returns (now: seq<Entry>)
    requires WorldLeads(whole, done, rest, world) && Ready(s, pool, reg)
    requires Outcome(WorldRoundText(rest, world), p, s, pool, reg, before + done)
    ensures p.Closed? ==> Outcome(whole, Next, s, pool, reg, before)
    ensures p.Failed? ==> Outcome(whole, Failed, s, pool, reg, before)
    ensures p.Next? ==> WorldLeads(whole, now, s.Rest(), world)
                        && Entries(pool, reg) == before + now
  {
    var round := WorldRoundText(rest, world);
    now := done;
    if round.Reads? {
      now := done + round.items;
      JoinedTwice(done, round.items, WorldItemsText(round.rest, world));
      assert before + now == before + done + round.items;
    }
  }

  /** One round of a world: its end, or one item. */
  method ParseWorldRound(s: Scanner, pool: TypePool, reg: Registry, world: string) returns (p: Progress)
    requires Ready(s, pool, reg)
    modifies s, pool, reg
    ensures Declared(s, pool, reg, old(pool.nodes), old(reg.decls), |old(s.Rest())|)
    ensures p.Next? ==> |s.Rest()| < |old(s.Rest())|
    ensures Outcome(WorldRoundText(old(s.Rest()), world), p, s, pool, reg, old(Entries(pool, reg)))
    decreases |s.Rest()|, 4
  {
    SkipToItem(s);
    if s.PeekChar() == '}' {
      PassBrace(s);
      var _ := s.MatchTrailingSemicolon();
      return Closed;
    }
    var ok := ParseWorldItem(s, pool, reg, world);
    p := if ok then Next else Failed;
  }

  method ParseWorldItem(s: Scanner, pool: TypePool, reg: Registry, world: string) returns (ok: bool)
    requires Ready(s, pool, reg) && AfterTrivia(s.Rest()) == s.Rest()
    modifies s, pool, reg
    ensures Declared(s, pool, reg, old(pool.nodes), old(reg.decls), |old(s.Rest())|)
    ensures ok ==> |s.Rest()| < |old(s.Rest())|
    ensures Outcome(WorldItemText(old(s.Rest()), world), if ok then Next else Failed, s, pool, reg,
                    old(Entries(pool, reg)))
    decreases |s.Rest()|, 3
  {
    ok := s.MatchKeyword("include");
    if ok {
      ok := ParseWorldReference(s, pool, reg, world, Include);
      return;
    }
    ok := s.MatchKeyword("import");
    if ok {
      ok := ParseWorldEndpoint(s, pool, reg, world, Import);
      return;
    }
    ok := s.MatchKeyword("export");
    if ok {
      ok := ParseWorldEndpoint(s, pool, reg, world, Export);
    }
  }

  method ParseWorldReference(s: Scanner, pool: TypePool, reg: Registry, world: string, item: ItemKind)
    returns (ok: bool)
    requires Ready(s, pool, reg)
    modifies s, pool, reg
    ensures Declared(s, pool, reg, old(pool.nodes), old(reg.decls), |old(s.Rest())|)
    ensures ok ==> |s.Rest()| < |old(s.Rest())|
    ensures Outcome(ReferenceText(old(s.Rest()), world, item), if ok then Next else Failed, s, pool, reg,
                    old(Entries(pool, reg)))
  {
    var raw;
    ok, raw := ReadRaw(s, MAX_RAW - 1);
    if !ok || Trim(raw) == "" {
      return false;
    }
    Record(reg, pool, s, WorldItem(world, item, Trim(raw)));
  }

  /** Looks ahead on a probe for an inline interface or function; anything else is a reference. */
  method ParseWorldEndpoint(s: Scanner, pool: TypePool, reg: Registry, world: string, item: ItemKind)
    returns (ok: bool)
    requires Ready(s, pool, reg)
    modifies s, pool, reg
    ensures Declared(s, pool, reg, old(pool.nodes), old(reg.decls), |old(s.Rest())|)
    ensures ok ==> |s.Rest()| < |old(s.Rest())|
    ensures Outcome(EndpointText(old(s.Rest()), world, item), if ok then Next else Failed, s, pool, reg,
                    old(Entries(pool, reg)))
    decreases |s.Rest()|, 4
  {
    var name, inlineInterface, inlineFunc := LookAhead(s);
    if !inlineInterface && !inlineFunc {
      ok := ParseWorldReference(s, pool, reg, world, item);
      return;
    }
    name := s.ScanIdent();
    if name == "" {
      return false;
    }
    ok := s.MatchChar(':');
    if !ok { return; }
    if inlineInterface {
      ok := ParseInlineInterfaceItem(s, pool, reg, world, item, name);
    } else {
      ok := ParseInlineFunc(s, pool, reg, world, item, name);
    }
  }

  /** Whether a named inline interface or function comes next. */
  method LookAhead(s: Scanner) returns (name: string, inlineInterface: bool, inlineFunc: bool)
    requires s.Valid()
    ensures name == Ident(s.Rest()).0
    ensures inlineInterface || inlineFunc ==> name != "" && Expect(Ident(s.Rest()).1, ':').Some?
    ensures name != "" && Expect(Ident(s.Rest()).1, ':').Some? ==>
              var behind := Expect(Ident(s.Rest()).1, ':').value;
              && inlineInterface == AfterKeyword(behind, "interface").0
              && inlineFunc == (!inlineInterface && AfterKeyword(behind, "func").0)
  {
    var probe := new Scanner.Copy(s);
    name := probe.ScanIdent();
    var named := false;
    if name != "" {
      named := probe.MatchChar(':');
    }
    inlineInterface, inlineFunc := false, false;
    if named {
      ghost var behind := probe.Rest();
      inlineInterface := probe.MatchKeyword("interface");
      if !inlineInterface {
        TriviaIsGone(behind);
        inlineFunc := probe.MatchKeyword("func");
      }
    }
  }

  method ParseInlineInterfaceItem(s: Scanner, pool: TypePool, reg: Registry, world: string, item: ItemKind,
                                  name: string)
    returns (ok: bool)
    requires Ready(s, pool, reg)
    modifies s, pool, reg
    ensures Declared(s, pool, reg, old(pool.nodes), old(reg.decls), |old(s.Rest())|)
    ensures AfterKeyword(old(s.Rest()), "interface").0 ==>
              Outcome(InlineItemText(AfterKeyword(old(s.Rest()), "interface").1, world, item, name),
                      if ok then Next else Failed, s, pool, reg, old(Entries(pool, reg)))
    decreases |s.Rest()|, 4
  {
    ok := s.MatchKeyword("interface");
    if !ok { return; }
    ok := ParseInlineItem(s, pool, reg, world, item, name);
  }

  method ParseInlineItem(s: Scanner, pool: TypePool, reg: Registry, world: string, item: ItemKind, name: string)
    returns (ok: bool)
    requires Ready(s, pool, reg)
    modifies s, pool, reg
    ensures Declared(s, pool, reg, old(pool.nodes), old(reg.decls), |old(s.Rest())|)
    ensures Outcome(InlineItemText(old(s.Rest()), world, item, name), if ok then Next else Failed, s, pool, reg,
                    old(Entries(pool, reg)))
    decreases |s.Rest()|, 4
  {
    var p := ParseInlineInterface(s, pool, reg, name);
    ok := p.Next?;
    if ok {
      EndInlineInterface(s, pool, reg, WorldItem(world, item, name));
    }
  }

  method EndInlineInterface(s: Scanner, pool: TypePool, reg: Registry, d: Decl)
    requires Ready(s, pool, reg) && d.WorldItem?
    modifies s, reg
    ensures Declared(s, pool, reg, pool.nodes, old(reg.decls), |old(s.Rest())|)
    ensures s.Rest() == SemicolonText(old(s.Rest()))
    ensures Entries(pool, reg) == old(Entries(pool, reg)) + [WorldItemEntry(d.world, d.item, d.text)]
  {
    var _ := s.MatchTrailingSemicolon();
    Record(reg, pool, s, d);
  }

  method ParseInlineFunc(s: Scanner, pool: TypePool, reg: Registry, world: string, item: ItemKind, name: string)
    returns (ok: bool)
    requires Ready(s, pool, reg)
    modifies s, pool, reg
    ensures Declared(s, pool, reg, old(pool.nodes), old(reg.decls), |old(s.Rest())|)
    ensures AfterKeyword(old(s.Rest()), "func").0 ==>
              Outcome(InlineFuncText(AfterKeyword(old(s.Rest()), "func").1, world, item, name),
                      if ok then Next else Failed, s, pool, reg, old(Entries(pool, reg)))
  {
    ok := s.MatchKeyword("func");
    if !ok { return; }
    ok := ParseInlineFuncItem(s, pool, reg, world, item, name);
  }

  method ParseInlineFuncItem(s: Scanner, pool: TypePool, reg: Registry, world: string, item: ItemKind, name: string)
    returns (ok: bool)
    requires Ready(s, pool, reg)
    modifies s, pool, reg
    ensures Declared(s, pool, reg, old(pool.nodes), old(reg.decls), |old(s.Rest())|)
    ensures Outcome(InlineFuncText(old(s.Rest()), world, item, name), if ok then Next else Failed, s, pool, reg,
                    old(Entries(pool, reg)))
  {
    ghost var before := Entries(pool, reg);
    Record(reg, pool, s, InterfaceDecl(name));
    ok := ParseInlineSignature(s, pool, reg, name);
    if ok {
      Record(reg, pool, s, WorldItem(world, item, name));
      ghost var signature := SignatureText(old(s.Rest()), "").value.0;
      assert Entries(pool, reg) == before + [InterfaceEntry(name), FuncEntry(name, name, Naming.Free, signature),
                                             WorldItemEntry(world, item, name)];
    }
  }

  method ParseInlineSignature(s: Scanner, pool: TypePool, reg: Registry, name: string) returns (ok: bool)
    requires Ready(s, pool, reg)
    modifies s, pool, reg
    ensures Declared(s, pool, reg, old(pool.nodes), old(reg.decls), |old(s.Rest())|)
    ensures ok <==> SignatureText(old(s.Rest()), "").Some?
    ensures ok ==> var (signature, rest) := SignatureText(old(s.Rest()), "").value;
                   && s.Rest() == rest
                   && Entries(pool, reg) == old(Entries(pool, reg)) + [FuncEntry(name, name, Naming.Free, signature)]
  {
    var params, result;
    ok, params, result := ParseSignature(s, pool, "");
    EntriesStay(old(pool.nodes), pool.nodes, reg.decls);
    if ok {
      Record(reg, pool, s, FuncDecl(name, name, Naming.Free, params, result));
    }
  }
}
