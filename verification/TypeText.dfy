/** WIT type expressions as text: the printer, the recursive-descent grammar, and how far they undo each other. */
module TypeText {
  import opened Wrappers
  import opened ScanText

  const MAX_PARAMS := 16

  datatype Kind = OptionKind | ListKind | TupleKind | ResultKind | BorrowKind

  /** A type expression; an omitted parameter is written as an underscore. */
  datatype Tree = Omitted | Named(name: string) | Generic(kind: Kind, params: seq<Tree>)

  function KindName(k: Kind): string {
    match k
    case OptionKind => "option"
    case ListKind => "list"
    case TupleKind => "tuple"
    case ResultKind => "result"
    case BorrowKind => "borrow"
  }

  function KindOf(name: string): Option<Kind> {
    if name == "option" then Some(OptionKind)
    else if name == "list" then Some(ListKind)
    else if name == "tuple" then Some(TupleKind)
    else if name == "result" then Some(ResultKind)
    else if name == "borrow" then Some(BorrowKind)
    else None
  }

  // ---------------------------------------------------------------- printing

  function Print(t: Tree): string
    decreases t
  {
    match t
    case Omitted => "_"
    case Named(name) => name
    case Generic(kind, params) => KindName(kind) + "<" + PrintFrom(t, 0) + ">"
  }

  /** The parameters from the `i`-th on, separated by commas. */
  function PrintFrom(t: Tree, i: nat): string
    requires t.Generic? && i <= |t.params|
    decreases t, |t.params| - i
  {
    if i == |t.params| then ""
    else Print(t.params[i]) + (if i + 1 < |t.params| then ", " + PrintFrom(t, i + 1) else "")
  }

  // ---------------------------------------------------------------- parsing

  type Parsed<+T> = Option<(T, string)>

  /** A type expression and what is left behind it. */
  function ParseType(s: string): (r: Parsed<Tree>)
    ensures r.Some? ==> |r.value.1| < |s|
    decreases |s|, 0
  {
    var (name, afterName) := Ident(s);
    var t := AfterTrivia(afterName);
    if name == "" then None
    else if Peek(t) != '<' then Some((if name == "result" then Generic(ResultKind, []) else Named(name), t))
    else if KindOf(name).None? then None
    else Close(KindOf(name).value, ParseParams(t[1..], MAX_PARAMS))
  }

  /** The bracket behind the parameters. */
  function Close(kind: Kind, params: Parsed<seq<Tree>>): (r: Parsed<Tree>)
    ensures r.Some? ==> params.Some? && |r.value.1| < |params.value.1|
  {
    if params.None? then None
    else
      var t := AfterTrivia(params.value.1);
      if Peek(t) == '>' && t != [] then Some((Generic(kind, params.value.0), t[1..])) else None
  }

  function ParseParam(s: string): (r: Parsed<Tree>)
    ensures r.Some? ==> |r.value.1| < |s|
    decreases |s|, 1
  {
    var t := AfterTrivia(s);
    if Peek(t) == '_' then Some((Omitted, t[1..])) else ParseType(t)
  }

  /** Up to `room` parameters; the comma behind the last one that fits is read with it. */
  function ParseParams(s: string, room: nat): (r: Parsed<seq<Tree>>)
    requires room > 0
    ensures r.Some? ==> |r.value.1| < |s|
    decreases |s|, 2
  {
    var first := ParseParam(s);
    if first.None? then None
    else
      var t := AfterTrivia(first.value.1);
      if Peek(t) != ',' then Some(([first.value.0], t))
      else if room == 1 then Some(([first.value.0], t[1..]))
      else Prepend(first.value.0, ParseParams(t[1..], room - 1))
  }

  function Prepend(param: Tree, r: Parsed<seq<Tree>>): Parsed<seq<Tree>> {
    if r.None? then None else Some(([param] + r.value.0, r.value.1))
  }

  // ---------------------------------------------------------------- where a failed parse stops

  /** What is left behind the place where a type goes wrong. */
  function TypeStop(s: string): (r: string)
    ensures |r| <= |s|
    decreases |s|, 0
  {
    var (name, afterName) := Ident(s);
    var t := AfterTrivia(afterName);
    if name == "" then afterName
    else if Peek(t) != '<' then t
    else if KindOf(name).None? then t[1..]
    else if ParseParams(t[1..], MAX_PARAMS).None? then ParamsStop(t[1..], MAX_PARAMS)
    else AfterTrivia(ParseParams(t[1..], MAX_PARAMS).value.1)
  }

  function ParamStop(s: string): (r: string)
    ensures |r| <= |s|
    decreases |s|, 1
  {
    var t := AfterTrivia(s);
    if Peek(t) == '_' then t else TypeStop(t)
  }

  function ParamsStop(s: string, room: nat): (r: string)
    requires room > 0
    ensures |r| <= |s|
    decreases |s|, 2
  {
    var first := ParseParam(s);
    if first.None? then ParamStop(s)
    else
      var t := AfterTrivia(first.value.1);
      if Peek(t) != ',' || room == 1 then t else ParamsStop(t[1..], room - 1)
  }

  // ---------------------------------------------------------------- which trees survive

  /** Trees of the grammar: what the parser can return. */
  predicate Grammatical(t: Tree)
    decreases t
  {
    match t
    case Omitted => false
    case Named(name) => IsName(name) && name != "result"
    case Generic(kind, params) =>
      && |params| <= MAX_PARAMS && (params == [] ==> kind == ResultKind)
      && forall p :: p in params ==> p.Omitted? || Grammatical(p)
  }

  predicate GrammaticalParams(params: seq<Tree>) {
    forall p :: p in params ==> p.Omitted? || Grammatical(p)
  }

  /** No bare `result`, and no parameter that is a name starting with an underscore. */
  predicate Printable(t: Tree)
    decreases t, 0
  {
    match t
    case Omitted => false
    case Named(_) => true
    case Generic(_, params) => params != [] && forall p :: p in params ==> PrintableParam(p)
  }

  predicate PrintableParam(p: Tree)
    decreases p, 1
  {
    p.Omitted? || (Printable(p) && (p.Named? ==> Peek(p.name) != '_'))
  }

  lemma {:induction false} ParsesGrammatical(s: string)
    ensures ParseType(s).Some? ==> Grammatical(ParseType(s).value.0)
    decreases |s|, 0
  {
    IdentIsName(s);
    var t := AfterTrivia(Ident(s).1);
    if ParseType(s).Some? && Peek(t) == '<' {
      ParsesGrammaticalParams(t[1..], MAX_PARAMS);
    }
  }

  lemma {:induction false} ParsesGrammaticalParams(s: string, room: nat)
    requires room > 0
    ensures ParseParams(s, room).Some? ==>
              0 < |ParseParams(s, room).value.0| <= room && GrammaticalParams(ParseParams(s, room).value.0)
    decreases |s|, 2
  {
    var first := ParseParam(s);
    if first.Some? {
      ParsesGrammatical(AfterTrivia(s));
      var t := AfterTrivia(first.value.1);
      if Peek(t) == ',' && room > 1 {
        ParsesGrammaticalParams(t[1..], room - 1);
        GrammaticalPrepend(first.value.0, ParseParams(t[1..], room - 1));
      }
    }
  }

  lemma GrammaticalPrepend(param: Tree, r: Parsed<seq<Tree>>)
    requires (param.Omitted? || Grammatical(param)) && (r.Some? ==> GrammaticalParams(r.value.0))
    ensures r.Some? ==> GrammaticalParams(Prepend(param, r).value.0)
  {
  }

  // ---------------------------------------------------------------- printing, then parsing

  /** `rest` can neither continue a name nor open its parameters. */
  predicate EndsName(rest: string) {
    (rest == [] || !IsIdentChar(rest[0])) && Peek(AfterTrivia(rest)) != '<'
  }

  lemma KindNames(k: Kind)
    ensures IsName(KindName(k)) && KindOf(KindName(k)) == Some(k) && KindName(k)[0] != '_'
  {
  }

  /** Printed text starts with a character of a name. */
  lemma PrintStarts(t: Tree, rest: string)
    requires t.Omitted? || Grammatical(t)
    ensures Print(t) != [] && IsIdentChar(Print(t)[0])
    ensures (Print(t) + rest)[0] == Print(t)[0]
    ensures AfterTrivia(Print(t) + rest) == Print(t) + rest
    ensures Peek(Print(t)) == '_' <==> t.Omitted? || (t.Named? && Peek(t.name) == '_')
  {
    if t.Generic? {
      KindNames(t.kind);
      assert Print(t)[0] == KindName(t.kind)[0];
    }
    assert (Print(t) + rest)[0] == Print(t)[0];
  }

  /** The printed parameters from the `i`-th on, with everything behind them. */
  function Tail(t: Tree, i: nat, rest: string): string
    requires t.Generic? && i <= |t.params|
  {
    PrintFrom(t, i) + (">" + rest)
  }

  /** What follows a parameter: a comma and the next ones, or the closing bracket. */
  function Behind(t: Tree, i: nat, rest: string): string
    requires t.Generic? && i < |t.params|
  {
    if i + 1 < |t.params| then ", " + Tail(t, i + 1, rest) else ">" + rest
  }

  lemma TailSplits(t: Tree, i: nat, rest: string)
    requires t.Generic? && i < |t.params|
    ensures Tail(t, i, rest) == Print(t.params[i]) + Behind(t, i, rest)
  {
    var p, end := Print(t.params[i]), ">" + rest;
    if i + 1 < |t.params| {
      assert p + (", " + PrintFrom(t, i + 1)) + end == p + (", " + (PrintFrom(t, i + 1) + end));
    } else {
      assert p + "" + end == p + end;
    }
  }

  lemma BehindEnds(b: string)
    requires b != [] && (b[0] == ',' || b[0] == '>')
    ensures EndsName(b) && AfterTrivia(b) == b
  {
  }

  lemma AfterComma(s: string)
    ensures (", " + s)[0] == ',' && AfterTrivia((", " + s)[1..]) == AfterTrivia(s)
  {
    assert (", " + s)[1..] == " " + s;
    assert (" " + s)[1..] == s;
  }

  /**
   * Printing and parsing a tree of the grammar gives it back exactly when it is printable, and then
   * the parser stops behind it, up to the trivia that follows a name.
   */
  lemma {:induction false} PrintThenParse(t: Tree, rest: string)
    requires Grammatical(t) && EndsName(rest)
    ensures Printable(t) ==>
              ParseType(Print(t) + rest) == Some((t, if t.Named? then AfterTrivia(rest) else rest))
    ensures ParseType(Print(t) + rest).Some? && ParseType(Print(t) + rest).value.0 == t ==> Printable(t)
    decreases t, 1, 1
  {
    match t
    case Named(name) => IdentReadsName(name, rest);
    case Generic(_, _) => GenericPrintThenParse(t, rest);
  }

  lemma {:induction false} GenericPrintThenParse(t: Tree, rest: string)
    requires t.Generic? && Grammatical(t)
    ensures Printable(t) ==> ParseType(Print(t) + rest) == Some((t, rest))
    ensures ParseType(Print(t) + rest).Some? && ParseType(Print(t) + rest).value.0 == t ==> Printable(t)
    decreases t, 1, 0
  {
    var body := Tail(t, 0, rest);
    OpensGeneric(t, rest, body);
    if t.params == [] {
      BareResultFails(body);
    } else {
      ParamsPrintThenParse(t, 0, rest);
      assert t.params[0..] == t.params;
      CloseStep(t.kind, t.params, rest, ParseParams(body, MAX_PARAMS));
    }
  }

  lemma CloseStep(kind: Kind, params: seq<Tree>, rest: string, r: Parsed<seq<Tree>>)
    requires params != []
    requires PrintableParams(params) ==> r == Some((params, ">" + rest))
    requires r.Some? && r.value.0 == params ==> PrintableParams(params)
    ensures Printable(Generic(kind, params)) ==> Close(kind, r) == Some((Generic(kind, params), rest))
    ensures Close(kind, r).Some? && Close(kind, r).value.0 == Generic(kind, params) ==> Printable(Generic(kind, params))
  {
    assert (">" + rest)[1..] == rest && AfterTrivia(">" + rest) == ">" + rest;
  }

  lemma OpensGeneric(t: Tree, rest: string, body: string)
    requires t.Generic? && body == Tail(t, 0, rest)
    ensures ParseType(Print(t) + rest) == Close(t.kind, ParseParams(body, MAX_PARAMS))
  {
    var name := KindName(t.kind);
    KindNames(t.kind);
    assert Print(t) + rest == name + ("<" + body);
    IdentReadsName(name, "<" + body);
    assert AfterTrivia("<" + body) == "<" + body && ("<" + body)[1..] == body;
  }

  /** A result without arms prints as `result<>`, which is no parameter list. */
  lemma BareResultFails(s: string)
    requires Peek(s) == '>'
    ensures ParseParams(s, MAX_PARAMS) == None
  {
    assert AfterTrivia(s) == s;
    assert IdentLength(s, MAX_IDENT) == 0;
    assert ParseType(s) == None;
  }

  predicate PrintableParams(params: seq<Tree>) {
    forall p :: p in params ==> PrintableParam(p)
  }

  /** Parsing `s` gives the parameters back, ending at `end`, exactly when they are printable. */
  predicate Survive(params: seq<Tree>, s: string, end: string, room: nat)
    requires room > 0
  {
    var r := ParseParams(s, room);
    && (PrintableParams(params) ==> r == Some((params, end)))
    && (r.Some? && r.value.0 == params ==> PrintableParams(params))
  }

  predicate Survives(p: Tree, s: string, end: string) {
    && (PrintableParam(p) ==> ParseParam(s) == Some((p, end)))
    && (ParseParam(s).Some? && ParseParam(s).value.0 == p ==> PrintableParam(p))
  }

  lemma {:induction false} ParamPrintThenParse(p: Tree, behind: string)
    requires p.Omitted? || Grammatical(p)
    requires EndsName(behind) && AfterTrivia(behind) == behind
    ensures Survives(p, Print(p) + behind, behind)
    decreases p, 2, 0
  {
    PrintStarts(p, behind);
    if p.Omitted? {
      assert (Print(p) + behind)[1..] == behind;
    } else {
      PrintThenParse(p, behind);
    }
  }

  lemma {:induction false} ParamsPrintThenParse(t: Tree, i: nat, rest: string)
    requires t.Generic? && i < |t.params| <= MAX_PARAMS && GrammaticalParams(t.params)
    ensures Survive(t.params[i..], Tail(t, i, rest), ">" + rest, MAX_PARAMS - i)
    decreases t, 0, |t.params| - i
  {
    ParamAt(t, i, rest);
    if i + 1 < |t.params| {
      ParamsPrintThenParse(t, i + 1, rest);
      assert t.params[i..] == [t.params[i]] + t.params[i + 1..];
      ParamsStep(t.params[i], t.params[i + 1..], Tail(t, i + 1, rest), Tail(t, i, rest), ">" + rest, MAX_PARAMS - i);
    } else {
      assert t.params[i..] == [t.params[i]];
      LastParam(t.params[i], Tail(t, i, rest), ">" + rest, MAX_PARAMS - i);
    }
  }

  lemma {:induction false} ParamAt(t: Tree, i: nat, rest: string)
    requires t.Generic? && i < |t.params| && GrammaticalParams(t.params)
    ensures Survives(t.params[i], Tail(t, i, rest), Behind(t, i, rest))
    decreases t, 0, 0
  {
    assert t.params[i] in t.params;
    BehindEnds(Behind(t, i, rest));
    ParamPrintThenParse(t.params[i], Behind(t, i, rest));
    TailSplits(t, i, rest);
  }

  lemma LastParam(p: Tree, s: string, end: string, room: nat)
    requires room > 0 && AfterTrivia(end) == end && Peek(end) == '>' && Survives(p, s, end)
    ensures Survive([p], s, end, room)
  {
    assert PrintableParams([p]) <==> PrintableParam(p) by {
      assert p in [p];
    }
  }

  /** One parameter and the ones behind it. */
  lemma ParamsStep(p: Tree, others: seq<Tree>, next: string, s: string, end: string, room: nat)
    requires room > 1 && Survives(p, s, ", " + next) && Survive(others, next, end, room - 1)
    ensures Survive([p] + others, s, end, room)
  {
    var all, r, first, behind := [p] + others, ParseParams(s, room), ParseParam(s), ", " + next;
    assert PrintableParams(all) <==> PrintableParam(p) && PrintableParams(others) by {
      assert forall q :: q in all <==> q == p || q in others;
    }
    AfterComma(next);
    BehindEnds(behind);
    SkipsLeadingTrivia(behind[1..], next, room - 1);
    var more := ParseParams(next, room - 1);
    if r.Some? && r.value.0 == all {
      assert r.value.0[0] == first.value.0 == p;
      assert r == Prepend(p, more);
      assert r.value.0[1..] == more.value.0 && all[1..] == others;
    }
  }

  /** Trivia in front of a parameter list does not matter. */
  lemma SkipsLeadingTrivia(s: string, t: string, room: nat)
    requires AfterTrivia(s) == AfterTrivia(t) && room > 0
    ensures ParseParams(s, room) == ParseParams(t, room)
  {
    assert ParseParam(s) == ParseParam(t);
  }

  /** Whatever text a type came from, printing it and parsing that gives the same type exactly when it is printable. */
  lemma ReparseExactly(s: string)
    requires ParseType(s).Some?
    ensures var t := ParseType(s).value.0;
            ParseType(Print(t)).Some? && ParseType(Print(t)).value.0 == t <==> Printable(t)
  {
    ParsesGrammatical(s);
    var t := ParseType(s).value.0;
    PrintThenParse(t, "");
    assert Print(t) + "" == Print(t);
  }

  /** A type that starts with a name and ends right behind it. */
  lemma BareName(name: string)
    requires IsName(name)
    ensures ParseType(name) == Some((if name == "result" then Generic(ResultKind, []) else Named(name), ""))
  {
    IdentReadsName(name, "");
    assert name + "" == name;
  }

  /** A result without arms is read, and its printed form is not. */
  lemma BareResultIsLost()
    ensures ParseType("result") == Some((Generic(ResultKind, []), ""))
    ensures ParseType(Print(Generic(ResultKind, []))) == None
  {
    var t := Generic(ResultKind, []);
    BareName("result");
    PrintThenParse(t, "");
    assert Print(t) + "" == Print(t);
    OpensGeneric(t, "", Tail(t, 0, ""));
    assert Tail(t, 0, "")[0] == '>';
    BareResultFails(Tail(t, 0, ""));
  }

  /** An escaped name with a leading underscore is read as a name, and printed as an omitted parameter. */
  lemma EscapeIsLost()
    ensures ParseType("list<%_x>") == Some((Generic(ListKind, [Named("_x")]), ""))
    ensures !Printable(Generic(ListKind, [Named("_x")]))
    ensures var r := ParseType(Print(Generic(ListKind, [Named("_x")])));
            r.None? || r.value.0 != Generic(ListKind, [Named("_x")])
  {
    var s, t := "list<%_x>", Generic(ListKind, [Named("_x")]);
    EscapedList();
    assert Named("_x") in t.params && !PrintableParam(Named("_x"));
    ReparseExactly(s);
  }

  lemma EscapedList()
    ensures ParseType("list<%_x>") == Some((Generic(ListKind, [Named("_x")]), ""))
  {
    var behind := "<%_x>";
    assert "list<%_x>" == "list" + behind && behind[1..] == "%_x>";
    IdentReadsName("list", behind);
    assert AfterTrivia(behind) == behind;
    EscapedParams();
  }

  lemma EscapedParams()
    ensures ParseParams("%_x>", MAX_PARAMS) == Some(([Named("_x")], ">"))
    ensures AfterTrivia(">") == ">"
  {
    EscapedName();
  }

  lemma EscapedName()
    ensures ParseType("%_x>") == Some((Named("_x"), ">"))
    ensures AfterTrivia("%_x>") == "%_x>" && AfterTrivia(">") == ">"
  {
    var s := "%_x>";
    assert s[1..] == "_x" + ">";
    IdentReadsName("_x", ">");
    assert AfterTrivia("_x>") == "_x>";
    IdentLengthIs("_x>", MAX_IDENT, 2);
    assert "_x>"[..2] == "_x" && "_x>"[2..] == ">";
    assert Ident(s) == ("_x", ">");
  }

  /** Different printable trees have different texts. */
  lemma PrintInjective(t: Tree, u: Tree)
    requires Grammatical(t) && Printable(t) && Grammatical(u) && Printable(u) && Print(t) == Print(u)
    ensures t == u
  {
    PrintThenParse(t, "");
    PrintThenParse(u, "");
  }
}
