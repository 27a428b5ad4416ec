/** Writing declarations out as text, each in front of what comes behind it, and reading them back. */
module DeclRender {
  import opened Wrappers
  import opened ScanText
  import opened TypeText
  import opened DeclText

  // ---- Words and punctuation ----

  /** A character that is neither trivia nor part of a name. */
  predicate IsMark(c: char) {
    !IsIdentChar(c) && !IsBlank(c) && c != '/' && c != '@' && c != '%' && c != '\0' && c != '<'
  }

  predicate StartsWithMark(s: string) {
    s != [] && IsMark(s[0])
  }

  predicate EndsWord(s: string) {
    s == [] || !IsIdentChar(s[0])
  }

  lemma MarkStays(s: string)
    requires StartsWithMark(s)
    ensures AfterTrivia(s) == s && EndsName(s) && EndsWord(s)
    ensures forall c :: Expect(s, c) == if s[0] == c then Some(s[1..]) else None
    ensures Ident(s).0 == ""
  {
  }

  lemma BlankGoes(s: string)
    ensures AfterTrivia(" " + s) == AfterTrivia(s) && Ident(" " + s) == Ident(s)
    ensures forall c :: Expect(" " + s, c) == Expect(s, c)
    ensures forall k :: AfterKeyword(" " + s, k) == AfterKeyword(s, k)
    ensures EndsWord(" " + s)
  {
    assert (" " + s)[1..] == s;
  }

  lemma BlankBeforeType(s: string)
    ensures ParseType(" " + s) == ParseType(s)
  {
    BlankGoes(s);
  }

  /** A name stands where it is read. */
  lemma NameStays(name: string, rest: string)
    requires IsName(name)
    ensures var s := name + rest;
            AfterTrivia(s) == s && s != [] && s[0] == name[0] && forall c :: !IsIdentChar(c) ==> Expect(s, c).None?
  {
    assert (name + rest)[0] == name[0];
  }

  /** A word in front of something else is a keyword only if it is that keyword. */
  lemma WordIsKeyword(word: string, rest: string, keyword: string)
    requires IsName(word) && IsName(keyword) && EndsWord(rest)
    ensures AfterKeyword(word + rest, keyword).0 <==> word == keyword
    ensures AfterKeyword(word + rest, word).1 == rest
    ensures !AfterKeyword(word + rest, keyword).0 ==> AfterKeyword(word + rest, keyword).1 == word + rest
  {
    var s := word + rest;
    NameStays(word, rest);
    assert s[..|word|] == word && s[|word|..] == rest;
    assert forall i :: 0 <= i < |word| ==> s[i] == word[i];
    assert rest != [] ==> s[|word|] == rest[0];
    if StartsKeyword(s, keyword) {
      assert forall i :: 0 <= i < |keyword| ==> s[i] == s[..|keyword|][i] == keyword[i];
      assert |keyword| == |word|;
    }
  }

  /** A printed type in front of a mark comes back. */
  lemma TypeComesBack(t: Tree, rest: string)
    requires IsWritable(t) && StartsWithMark(rest)
    ensures ParseType(Print(t) + rest) == Some((t, rest))
  {
    MarkStays(rest);
    PrintThenParse(t, rest);
  }

  predicate IsWritable(t: Tree) {
    Grammatical(t) && Printable(t)
  }

  // ---- Members ----

  function MemberOut(m: Member, shape: Shape, rest: string): string {
    match m.ty
    case None => m.name + rest
    case Some(t) =>
      if shape == Typed then m.name + (":" + (" " + (Print(t) + rest)))
      else m.name + ("(" + (Print(t) + (")" + rest)))
  }

  predicate FitsShape(m: Member, shape: Shape) {
    && IsName(m.name)
    && (shape.Plain? ==> m.ty.None?)
    && (shape.Typed? ==> m.ty.Some?)
    && (m.ty.Some? ==> IsWritable(m.ty.value))
  }

  lemma MemberComesBack(m: Member, shape: Shape, rest: string)
    requires FitsShape(m, shape) && StartsWithMark(rest) && rest[0] != '('
    ensures MemberText(MemberOut(m, shape, rest), shape) == Some((m, rest))
    ensures AfterTrivia(MemberOut(m, shape, rest)) == MemberOut(m, shape, rest)
    ensures forall c :: !IsIdentChar(c) ==> Expect(MemberOut(m, shape, rest), c).None?
  {
    MarkStays(rest);
    match m.ty
    case None =>
      NameStays(m.name, rest);
      IdentReadsName(m.name, rest);
    case Some(t) =>
      if shape == Typed {
        TypedComesBack(m.name, t, rest);
      } else {
        PayloadComesBack(m.name, t, rest);
      }
  }

  lemma TypedComesBack(name: string, t: Tree, rest: string)
    requires IsName(name) && IsWritable(t) && StartsWithMark(rest)
    ensures var s := MemberOut(Member(name, Some(t)), Typed, rest);
            && MemberText(s, Typed) == Some((Member(name, Some(t)), rest))
            && AfterTrivia(s) == s && forall c :: !IsIdentChar(c) ==> Expect(s, c).None?
  {
    var typed := " " + (Print(t) + rest);
    NameStays(name, ":" + typed);
    IdentReadsName(name, ":" + typed);
    MarkStays(":" + typed);
    assert (":" + typed)[1..] == typed;
    BlankBeforeType(Print(t) + rest);
    TypeComesBack(t, rest);
  }

  lemma PayloadComesBack(name: string, t: Tree, rest: string)
    requires IsName(name) && IsWritable(t) && StartsWithMark(rest)
    ensures var s := MemberOut(Member(name, Some(t)), Payload, rest);
            && MemberText(s, Payload) == Some((Member(name, Some(t)), rest))
            && AfterTrivia(s) == s && forall c :: !IsIdentChar(c) ==> Expect(s, c).None?
  {
    var payload := Print(t) + (")" + rest);
    NameStays(name, "(" + payload);
    IdentReadsName(name, "(" + payload);
    MarkStays("(" + payload);
    assert ("(" + payload)[1..] == payload;
    MarkStays(")" + rest);
    assert (")" + rest)[1..] == rest;
    TypeComesBack(t, ")" + rest);
  }

  /** Members with a comma behind each, and the closing brace. */
  function MembersOut(ms: seq<Member>, shape: Shape, rest: string): string {
    if ms == [] then "}" + rest else MemberOut(ms[0], shape, "," + (" " + MembersOut(ms[1..], shape, rest)))
  }

  predicate AllFit(ms: seq<Member>, shape: Shape) {
    forall i :: 0 <= i < |ms| ==> FitsShape(ms[i], shape)
  }

  lemma {:induction false} MembersComeBack(ms: seq<Member>, shape: Shape, count: nat, limit: nat, rest: string)
    requires AllFit(ms, shape) && count + |ms| <= limit
    ensures MembersText(MembersOut(ms, shape, rest), shape, count, limit) == Some((ms, rest))
    decreases ms
  {
    if ms == [] {
      MarkStays("}" + rest);
      assert ("}" + rest)[1..] == rest;
    } else {
      var more := MembersOut(ms[1..], shape, rest);
      MembersComeBack(ms[1..], shape, count + 1, limit, rest);
      OneMemberMore(ms[0], ms[1..], shape, count, limit, more, rest);
      assert ms == [ms[0]] + ms[1..];
    }
  }

  lemma OneMemberMore(m: Member, ms: seq<Member>, shape: Shape, count: nat, limit: nat, more: string, rest: string)
    requires FitsShape(m, shape) && count < limit && MembersText(more, shape, count + 1, limit) == Some((ms, rest))
    ensures MembersText(MemberOut(m, shape, "," + (" " + more)), shape, count, limit) == Some(([m] + ms, rest))
  {
    var behind := "," + (" " + more);
    MarkStays(behind);
    assert behind[1..] == " " + more;
    MemberComesBack(m, shape, behind);
    BlankBeforeMembers(more, shape, count + 1, limit);
    MembersUnfold(MemberOut(m, shape, behind), shape, count, limit, m, behind);
  }

  lemma BlankBeforeMembers(s: string, shape: Shape, count: nat, limit: nat)
    ensures MembersText(" " + s, shape, count, limit) == MembersText(s, shape, count, limit)
  {
    BlankGoes(s);
  }

  // ---- Signatures ----

  /** Parameters with commas between them, and the closing parenthesis. */
  function ParamsOut(ps: seq<Member>, rest: string): string
    decreases |ps|, 0
  {
    if ps == [] then ")" + rest
    else MemberOut(ps[0], Typed, ParamsBehind(ps[1..], rest))
  }

  function ParamsBehind(ps: seq<Member>, rest: string): string
    decreases |ps|, 1
  {
    if ps == [] then ")" + rest else "," + (" " + ParamsOut(ps, rest))
  }

  lemma {:induction false} ParamsComeBack(ps: seq<Member>, count: nat, limit: nat, rest: string)
    requires AllFit(ps, Typed) && count + |ps| <= limit && count < limit
    ensures ParamsText(ParamsOut(ps, rest), count, limit) == Some((ps, rest))
    decreases |ps|
  {
    if ps == [] {
      NoParamComesBack(count, limit, rest);
    } else {
      var m, others := FirstFits(ps, Typed);
      ParamsOutIs(ps, m, others, rest);
      if |others| == 0 {
        LastParamComesBack(m, count, limit, rest);
      } else {
        ParamsComeBack(others, count + 1, limit, rest);
        assert FitsShape(m, Typed);
        assert ParamsText(ParamsOut(others, rest), count + 1, limit) == Some((others, rest));
        OneParamMore(m, others, count, limit, ParamsOut(others, rest), rest);
      }
    }
  }

  lemma FirstFits(ms: seq<Member>, shape: Shape) returns (m: Member, others: seq<Member>)
    requires ms != [] && AllFit(ms, shape)
    ensures m == ms[0] && others == ms[1..] && FitsShape(m, shape) && AllFit(others, shape)
  {
    m, others := ms[0], ms[1..];
  }

  lemma ParamsOutIs(ps: seq<Member>, m: Member, others: seq<Member>, rest: string)
    requires ps != [] && m == ps[0] && others == ps[1..]
    ensures ps == [m] + others && (|others| == 0 ==> ps == [m])
    ensures ParamsOut(ps, rest) ==
            MemberOut(m, Typed, if |others| == 0 then ")" + rest else "," + (" " + ParamsOut(others, rest)))
  {
  }

  lemma NoParamComesBack(count: nat, limit: nat, rest: string)
    requires count < limit
    ensures ParamsText(")" + rest, count, limit) == Some(([], rest))
  {
    MarkStays(")" + rest);
    assert (")" + rest)[1..] == rest;
  }

  lemma LastParamComesBack(m: Member, count: nat, limit: nat, rest: string)
    requires FitsShape(m, Typed) && count < limit
    ensures ParamsText(MemberOut(m, Typed, ")" + rest), count, limit) == Some(([m], rest))
  {
    MarkStays(")" + rest);
    assert (")" + rest)[1..] == rest;
    MemberComesBack(m, Typed, ")" + rest);
    ParamsUnfold(MemberOut(m, Typed, ")" + rest), count, limit, m, ")" + rest);
  }

  lemma OneParamMore(m: Member, ps: seq<Member>, count: nat, limit: nat, more: string, rest: string)
    requires FitsShape(m, Typed) && count < limit && ParamsText(more, count + 1, limit) == Some((ps, rest))
    ensures ParamsText(MemberOut(m, Typed, "," + (" " + more)), count, limit) == Some(([m] + ps, rest))
  {
    var behind := "," + (" " + more);
    MarkStays(behind);
    assert behind[1..] == " " + more;
    MemberComesBack(m, Typed, behind);
    BlankBeforeParams(more, count + 1, limit);
    ParamsUnfold(MemberOut(m, Typed, behind), count, limit, m, behind);
  }

  lemma BlankBeforeParams(s: string, count: nat, limit: nat)
    ensures ParamsText(" " + s, count, limit) == ParamsText(s, count, limit)
  {
    BlankGoes(s);
  }

  function ResultOut(result: Option<Tree>, rest: string): string {
    match result
    case None => rest
    case Some(t) => " " + ("-" + (">" + (" " + (Print(t) + rest))))
  }

  lemma ResultComesBack(result: Option<Tree>, implied: string, rest: string)
    requires StartsWithMark(rest) && rest[0] != '-'
    requires result.Some? ==> IsWritable(result.value)
    requires implied != "" ==> result.Some?
    ensures ResultText(ResultOut(result, rest), implied) == Some((result, rest))
  {
    MarkStays(rest);
    if result.Some? {
      var typed := Print(result.value) + rest;
      var arrow := "-" + (">" + (" " + typed));
      BlankGoes(arrow);
      assert AfterTrivia(arrow) == arrow;
      assert arrow[2..] == " " + typed;
      BlankBeforeType(typed);
      TypeComesBack(result.value, rest);
    }
  }

  function SignatureOut(signature: Signature, rest: string): string {
    "(" + ParamsOut(signature.params, ResultOut(signature.result, ";" + rest))
  }

  predicate IsPlainSignature(signature: Signature) {
    && AllFit(signature.params, Typed) && |signature.params| <= MAX_FIELDS
    && (signature.result.Some? ==> IsWritable(signature.result.value))
  }

  lemma ParamListComesBack(params: seq<Member>, rest: string)
    requires AllFit(params, Typed) && |params| <= MAX_FIELDS
    ensures ParamListText("(" + ParamsOut(params, rest)) == Some((params, rest))
    ensures EndsWord("(" + ParamsOut(params, rest))
  {
    var s := "(" + ParamsOut(params, rest);
    MarkStays(s);
    assert s[1..] == ParamsOut(params, rest);
    ParamsComeBack(params, 0, MAX_FIELDS, rest);
  }

  lemma SignatureComesBack(signature: Signature, implied: string, rest: string)
    requires IsPlainSignature(signature) && (implied != "" ==> signature.result.Some?)
    ensures SignatureText(SignatureOut(signature, rest), implied) == Some((signature, rest))
    ensures EndsWord(SignatureOut(signature, rest))
  {
    var result := ResultOut(signature.result, ";" + rest);
    ParamListComesBack(signature.params, result);
    MarkStays(";" + rest);
    assert (";" + rest)[1..] == rest;
    ResultComesBack(signature.result, implied, ";" + rest);
    SignatureIs(SignatureOut(signature, rest), implied, signature.params, result, signature.result, ";" + rest);
  }
}
