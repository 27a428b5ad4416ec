/** The grammar of declarations over the text that is still to be read. */
module DeclText {
  import opened Wrappers
  import opened ScanText
  import opened TypeText

  const MAX_FIELDS := 64
  const MAX_CASES := 128

  /** A named type; a case without payload, an enum case and a flag have none. */
  datatype Member = Member(name: string, ty: Option<Tree>)

  datatype Shape = Plain | Typed | Payload

  /** What is left behind the character `c`, if it comes next. */
  function Expect(s: string, c: char): (r: Option<string>)
    ensures r.Some? ==> |r.value| < |s|
  {
    var t := AfterTrivia(s);
    if t != [] && t[0] == c then Some(t[1..]) else None
  }

  function OptionalComma(s: string): (r: string)
    ensures |r| <= |s|
  {
    if Expect(s, ',').Some? then Expect(s, ',').value else AfterTrivia(s)
  }

  function Typing(name: string, t: Parsed<Tree>): (r: Parsed<Member>)
    ensures r.Some? ==> t.Some? && r.value.1 == t.value.1
  {
    if t.None? then None else Some((Member(name, Some(t.value.0)), t.value.1))
  }

  function Closing<T>(t: Parsed<T>, c: char): (r: Parsed<T>)
    ensures r.Some? ==> t.Some? && |r.value.1| < |t.value.1|
  {
    if t.None? || Expect(t.value.1, c).None? then None else Some((t.value.0, Expect(t.value.1, c).value))
  }

  function MemberText(s: string, shape: Shape): (r: Parsed<Member>)
    ensures r.Some? ==> |r.value.1| < |s|
  {
    var (name, rest) := Ident(s);
    if name == "" then None
    else
      match shape
      case Plain => Some((Member(name, None), rest))
      case Typed => if Expect(rest, ':').None? then None else Typing(name, ParseType(Expect(rest, ':').value))
      case Payload =>
        if Expect(rest, '(').None? then Some((Member(name, None), AfterTrivia(rest)))
        else Closing(Typing(name, ParseType(Expect(rest, '(').value)), ')')
  }

  function Prefix(front: seq<Member>, t: Parsed<seq<Member>>): (r: Parsed<seq<Member>>)
    ensures r.Some? ==> t.Some? && r.value.1 == t.value.1
  {
    if t.None? then None else Some((front + t.value.0, t.value.1))
  }

  lemma PrefixTwice(a: seq<Member>, b: seq<Member>, r: Parsed<seq<Member>>)
    ensures Prefix(a, Prefix(b, r)) == Prefix(a + b, r)
    ensures Prefix([], r) == r
  {
    if r.Some? {
      assert [] + r.value.0 == r.value.0;
      assert a + (b + r.value.0) == a + b + r.value.0;
    }
  }

  /** The members from the `count`-th on, each with an optional comma, up to the closing brace. */
  function MembersText(s: string, shape: Shape, count: nat, limit: nat): (r: Parsed<seq<Member>>)
    ensures r.Some? ==> |r.value.1| < |s|
    decreases limit - count
  {
    if Expect(s, '}').Some? then Some(([], Expect(s, '}').value))
    else if count >= limit then None
    else
      match MemberText(AfterTrivia(s), shape)
      case None => None
      case Some((m, rest)) => Prefix([m], MembersText(OptionalComma(rest), shape, count + 1, limit))
  }

  lemma OneMore(whole: Parsed<seq<Member>>, done: seq<Member>, now: Parsed<seq<Member>>, m: Member,
                later: Parsed<seq<Member>>)
    requires whole == Prefix(done, now) && now == Prefix([m], later)
    ensures whole == Prefix(done + [m], later)
  {
    PrefixTwice(done, [m], later);
  }

  lemma NoMore(done: seq<Member>, end: string)
    ensures Prefix(done, Some(([], end))) == Some((done, end))
  {
    assert done + [] == done;
  }

  /** What the rest of the text holds completes the members `done` to the whole list. */
  predicate MembersLead(whole: Parsed<seq<Member>>, done: seq<Member>, rest: string, shape: Shape, count: nat,
                        limit: nat) {
    whole == Prefix(done, MembersText(rest, shape, count, limit))
  }

  lemma MembersGoOn(whole: Parsed<seq<Member>>, done: seq<Member>, rest: string, shape: Shape, count: nat, limit: nat,
                    m: Member, after: string)
    requires MembersLead(whole, done, rest, shape, count, limit) && count < limit
    requires Expect(rest, '}').None? && MemberText(AfterTrivia(rest), shape) == Some((m, after))
    ensures MembersLead(whole, done + [m], OptionalComma(after), shape, count + 1, limit)
  {
    MembersUnfold(rest, shape, count, limit, m, after);
    OneMore(whole, done, MembersText(rest, shape, count, limit), m,
            MembersText(OptionalComma(after), shape, count + 1, limit));
  }

  lemma MembersUnfold(s: string, shape: Shape, count: nat, limit: nat, m: Member, after: string)
    requires count < limit && Expect(s, '}').None? && MemberText(AfterTrivia(s), shape) == Some((m, after))
    ensures MembersText(s, shape, count, limit) ==
              Prefix([m], MembersText(OptionalComma(after), shape, count + 1, limit))
  {
  }

  lemma MembersEnd(whole: Parsed<seq<Member>>, done: seq<Member>, rest: string, shape: Shape, count: nat, limit: nat)
    requires MembersLead(whole, done, rest, shape, count, limit)
    ensures Expect(rest, '}').Some? ==> whole == Some((done, Expect(rest, '}').value))
    ensures Expect(rest, '}').None? && (count >= limit || MemberText(AfterTrivia(rest), shape).None?) ==> whole.None?
  {
    if Expect(rest, '}').Some? {
      NoMore(done, Expect(rest, '}').value);
    }
  }

  /** The parameters from the `count`-th on, up to the closing parenthesis; behind a comma there must
      be room for another one. */
  function ParamsText(s: string, count: nat, limit: nat): (r: Parsed<seq<Member>>)
    ensures r.Some? ==> |r.value.1| < |s|
    decreases limit - count
  {
    if count >= limit then None
    else if Expect(s, ')').Some? then Some(([], Expect(s, ')').value))
    else
      match MemberText(AfterTrivia(s), Typed)
      case None => None
      case Some((m, rest)) =>
        if Expect(rest, ',').Some? then Prefix([m], ParamsText(Expect(rest, ',').value, count + 1, limit))
        else Closing(Some(([m], AfterTrivia(rest))), ')')
  }

  predicate ParamsLead(whole: Parsed<seq<Member>>, done: seq<Member>, rest: string, count: nat, limit: nat) {
    whole == Prefix(done, ParamsText(rest, count, limit))
  }

  lemma ParamsUnfold(s: string, count: nat, limit: nat, m: Member, after: string)
    requires count < limit && Expect(s, ')').None? && MemberText(AfterTrivia(s), Typed) == Some((m, after))
    ensures Expect(after, ',').Some? ==>
              ParamsText(s, count, limit) == Prefix([m], ParamsText(Expect(after, ',').value, count + 1, limit))
    ensures Expect(after, ',').None? ==> ParamsText(s, count, limit) == Closing(Some(([m], AfterTrivia(after))), ')')
  {
  }

  lemma ParamsGoOn(whole: Parsed<seq<Member>>, done: seq<Member>, rest: string, count: nat, limit: nat, m: Member,
                   after: string)
    requires ParamsLead(whole, done, rest, count, limit) && count < limit
    requires Expect(rest, ')').None? && MemberText(AfterTrivia(rest), Typed) == Some((m, after))
    ensures Expect(after, ',').Some? ==> ParamsLead(whole, done + [m], Expect(after, ',').value, count + 1, limit)
    ensures Expect(after, ',').None? ==> whole == Closing(Some((done + [m], AfterTrivia(after))), ')')
  {
    ParamsUnfold(rest, count, limit, m, after);
    if Expect(after, ',').Some? {
      OneMore(whole, done, ParamsText(rest, count, limit), m, ParamsText(Expect(after, ',').value, count + 1, limit));
    } else {
      LastOne(done, m, AfterTrivia(after), ')');
    }
  }

  lemma LastOne(done: seq<Member>, m: Member, after: string, c: char)
    ensures Prefix(done, Closing(Some(([m], after)), c)) == Closing(Some((done + [m], after)), c)
  {
  }

  lemma ParamsEnd(whole: Parsed<seq<Member>>, done: seq<Member>, rest: string, count: nat, limit: nat)
    requires ParamsLead(whole, done, rest, count, limit)
    ensures count >= limit ==> whole.None?
    ensures count < limit && Expect(rest, ')').Some? ==> whole == Some((done, Expect(rest, ')').value))
    ensures count < limit && Expect(rest, ')').None? && MemberText(AfterTrivia(rest), Typed).None? ==> whole.None?
  {
    if Expect(rest, ')').Some? {
      NoMore(done, Expect(rest, ')').value);
    }
  }

  function AfterArrow(s: string): (r: Option<string>)
    ensures r.Some? ==> |r.value| < |s|
  {
    var t := AfterTrivia(s);
    if |t| > 1 && t[0] == '-' && t[1] == '>' then Some(t[2..]) else None
  }

  datatype Signature = Signature(params: seq<Member>, result: Option<Tree>)

  function ParamListText(s: string): (r: Parsed<seq<Member>>)
    ensures r.Some? ==> |r.value.1| < |s|
  {
    if Expect(s, '(').None? then None else ParamsText(Expect(s, '(').value, 0, MAX_FIELDS)
  }

  /** The result behind an arrow; without one it is `implied`, if that is a name at all. */
  function ResultText(s: string, implied: string): (r: Parsed<Option<Tree>>)
    ensures r.Some? ==> |r.value.1| <= |s|
  {
    var arrow := AfterArrow(s);
    if arrow.None? then Some((if implied == "" then None else Some(Named(implied)), AfterTrivia(s)))
    else
      match ParseType(arrow.value)
      case None => None
      case Some((t, end)) => Some((Some(t), end))
  }

  /** Parameters, result and semicolon. */
  function SignatureText(s: string, implied: string): (r: Parsed<Signature>)
    ensures r.Some? ==> |r.value.1| < |s|
  {
    match ParamListText(s)
    case None => None
    case Some((params, rest)) =>
      match ResultText(rest, implied)
      case None => None
      case Some((result, end)) => Closing(Some((Signature(params, result), end)), ';')
  }

  lemma SignatureIs(s: string, implied: string, params: seq<Member>, rest: string, result: Option<Tree>, end: string)
    requires ParamListText(s) == Some((params, rest)) && ResultText(rest, implied) == Some((result, end))
    ensures SignatureText(s, implied) == Closing(Some((Signature(params, result), end)), ';')
  {
  }

  /** The name and braced members of a record, variant, enum or flags declaration. */
  function BodyText(s: string, shape: Shape, limit: nat): (r: Parsed<(string, seq<Member>)>)
    ensures r.Some? ==> |r.value.1| < |s|
  {
    var (name, rest) := Ident(s);
    if name == "" || Expect(rest, '{').None? then None
    else
      match MembersText(Expect(rest, '{').value, shape, 0, limit)
      case None => None
      case Some((members, end)) => Some(((name, members), end))
  }

  /** An alias; its semicolon may be missing. */
  function AliasText(s: string): (r: Parsed<Member>)
    ensures r.Some? ==> |r.value.1| < |s|
  {
    var (name, rest) := Ident(s);
    if name == "" || Expect(rest, '=').None? then None
    else
      match Typing(name, ParseType(Expect(rest, '=').value))
      case None => None
      case Some((m, end)) => Some((m, if Expect(end, ';').Some? then Expect(end, ';').value else AfterTrivia(end)))
  }

  /** What is left behind a keyword, or behind the trivia where it is missing. */
  function AfterKeyword(s: string, keyword: string): (r: (bool, string))
    ensures |r.1| <= |s| && (r.0 && keyword != "" ==> |r.1| < |s|)
  {
    var t := AfterTrivia(s);
    if StartsKeyword(t, keyword) then (true, t[|keyword|..]) else (false, t)
  }

  datatype FuncText = FuncText(name: string, isStatic: bool, signature: Signature)

  /** Whether the function is static, and what is left behind the keyword. */
  function FuncKeyword(s: string, inResource: bool): (r: Parsed<bool>)
    ensures r.Some? ==> |r.value.1| < |s|
  {
    var (isStatic, rest) := if inResource then AfterKeyword(s, "static") else (false, s);
    var (isFunc, end) := AfterKeyword(rest, "func");
    if isFunc then Some((isStatic, end)) else None
  }

  /** The name and keywords in front of a signature. */
  function FuncHead(s: string, inResource: bool): (r: Parsed<(string, bool)>)
    ensures r.Some? ==> |r.value.1| < |s|
  {
    var (name, rest) := Ident(s);
    if name == "" || Expect(rest, ':').None? then None
    else
      match FuncKeyword(Expect(rest, ':').value, inResource)
      case None => None
      case Some((isStatic, end)) => Some(((name, isStatic), end))
  }

  function NamedFuncText(s: string, inResource: bool): (r: Parsed<FuncText>)
    ensures r.Some? ==> |r.value.1| < |s|
  {
    match FuncHead(s, inResource)
    case None => None
    case Some((head, rest)) =>
      match SignatureText(rest, "")
      case None => None
      case Some((signature, end)) => Some((FuncText(head.0, head.1, signature), end))
  }

  function ConstructorText(s: string, owner: string): (r: Parsed<Signature>)
    ensures r.Some? ==> |r.value.1| < |s|
  {
    var (found, rest) := AfterKeyword(s, "constructor");
    if found then SignatureText(rest, owner) else None
  }

  // ---- Where a failed parse stops ----

  /** What is left behind the place where a typed member goes wrong. */
  function MemberStop(s: string): (r: string)
    ensures |r| <= |s|
  {
    var (name, rest) := Ident(s);
    if name == "" then rest
    else if Expect(rest, ':').None? then AfterTrivia(rest)
    else TypeStop(Expect(rest, ':').value)
  }

  function FuncParamsStop(s: string, count: nat, limit: nat): (r: string)
    ensures |r| <= |s|
    decreases limit - count
  {
    if count >= limit || Expect(s, ')').Some? then s
    else
      match MemberText(AfterTrivia(s), Typed)
      case None => MemberStop(AfterTrivia(s))
      case Some((_, rest)) =>
        if Expect(rest, ',').Some? then FuncParamsStop(Expect(rest, ',').value, count + 1, limit) else AfterTrivia(rest)
  }

  function ParamListStop(s: string): (r: string)
    ensures |r| <= |s|
  {
    if Expect(s, '(').None? then AfterTrivia(s) else FuncParamsStop(Expect(s, '(').value, 0, MAX_FIELDS)
  }

  /** A result goes wrong behind its arrow only. */
  function ResultStop(s: string): (r: string)
    ensures |r| <= |s|
  {
    if AfterArrow(s).None? then s else TypeStop(AfterArrow(s).value)
  }

  function SignatureStop(s: string, implied: string): (r: string)
    ensures |r| <= |s|
  {
    match ParamListText(s)
    case None => ParamListStop(s)
    case Some((_, rest)) =>
      match ResultText(rest, implied)
      case None => ResultStop(rest)
      case Some((_, end)) => AfterTrivia(end)
  }
}
