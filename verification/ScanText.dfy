/** The lexical rules of the WIT scanner, on the text that is still to be read. */
module ScanText {

  const MAX_IDENT := 127

  predicate IsAlnum(c: char) {
    '0' <= c <= '9' || 'A' <= c <= 'Z' || 'a' <= c <= 'z'
  }

  predicate IsIdentChar(c: char) {
    IsAlnum(c) || c == '-' || c == '_'
  }

  predicate IsAttributeChar(c: char) {
    IsIdentChar(c) || c == '.'
  }

  predicate IsBlank(c: char) {
    c == ' ' || c == '\t' || c == '\n' || c == '\r'
  }

  /** The next character, or a null character at the end. */
  function Peek(s: string): char {
    if s == [] then '\0' else s[0]
  }

  function DropWhile(p: char -> bool, s: string): (r: string)
    ensures |r| <= |s|
  {
    if s != [] && p(s[0]) then DropWhile(p, s[1..]) else s
  }

  /** From an opening bracket to behind the one that closes it, or to the end. */
  function AfterBalanced(s: string, open: char, close: char, depth: int): (r: string)
    ensures |r| <= |s|
  {
    if s == [] then s
    else if s[0] == open then AfterBalanced(s[1..], open, close, depth + 1)
    else if s[0] == close then (if depth - 1 <= 0 then s[1..] else AfterBalanced(s[1..], open, close, depth - 1))
    else AfterBalanced(s[1..], open, close, depth)
  }

  function AfterBlockComment(s: string): (r: string)
    ensures |r| <= |s|
  {
    if s == [] then s
    else if s[0] == '*' && |s| > 1 && s[1] == '/' then s[2..]
    else AfterBlockComment(s[1..])
  }

  function AfterAttribute(s: string): (r: string)
    requires s != []
    ensures |r| < |s|
  {
    var t := DropWhile(IsBlank, DropWhile(IsAttributeChar, s[1..]));
    if Peek(t) == '(' then AfterBalanced(t, '(', ')', 0) else t
  }

  predicate StartsLineComment(s: string) {
    |s| > 1 && s[0] == '/' && s[1] == '/'
  }

  predicate StartsBlockComment(s: string) {
    |s| > 1 && s[0] == '/' && s[1] == '*'
  }

  /** What is left after blanks, comments and attributes. */
  function AfterTrivia(s: string): (r: string)
    ensures |r| <= |s|
    decreases |s|
  {
    if s == [] then s
    else if IsBlank(s[0]) then AfterTrivia(s[1..])
    else if StartsLineComment(s) then AfterTrivia(DropWhile(c => c != '\n', s[2..]))
    else if StartsBlockComment(s) then AfterTrivia(AfterBlockComment(s[2..]))
    else if s[0] == '@' then AfterTrivia(AfterAttribute(s))
    else s
  }

  predicate StartsTrivia(s: string) {
    s != [] && (IsBlank(s[0]) || StartsLineComment(s) || StartsBlockComment(s) || s[0] == '@')
  }

  lemma {:induction false} TriviaIsGone(s: string)
    ensures !StartsTrivia(AfterTrivia(s))
    ensures AfterTrivia(AfterTrivia(s)) == AfterTrivia(s)
    decreases |s|
  {
    if s != [] {
      if IsBlank(s[0]) {
        TriviaIsGone(s[1..]);
      } else if StartsLineComment(s) {
        TriviaIsGone(DropWhile(c => c != '\n', s[2..]));
      } else if StartsBlockComment(s) {
        TriviaIsGone(AfterBlockComment(s[2..]));
      } else if s[0] == '@' {
        TriviaIsGone(AfterAttribute(s));
      }
    }
  }

  function IdentLength(s: string, room: nat): (n: nat)
    ensures n <= room && n <= |s|
  {
    if room == 0 || s == [] || !IsIdentChar(s[0]) then 0 else 1 + IdentLength(s[1..], room - 1)
  }

  /** An identifier and what is left behind it; the name is empty when there is none. */
  function Ident(s: string): (r: (string, string))
    ensures |r.1| <= |s| && (r.0 != [] ==> |r.1| < |s|)
  {
    var t := AfterTrivia(s);
    var u := if Peek(t) == '%' && t != [] then t[1..] else t;
    var n := IdentLength(u, MAX_IDENT);
    (u[..n], u[n..])
  }

  predicate IsName(s: string) {
    0 < |s| <= MAX_IDENT && forall i :: 0 <= i < |s| ==> IsIdentChar(s[i])
  }

  lemma {:induction false} IdentLengthIs(s: string, room: nat, n: nat)
    requires n <= room && n <= |s|
    ensures n == IdentLength(s, room) <==>
            (forall i :: 0 <= i < n ==> IsIdentChar(s[i])) && (n < room && n < |s| ==> !IsIdentChar(s[n]))
  {
    if room > 0 && s != [] && IsIdentChar(s[0]) && n > 0 {
      IdentLengthIs(s[1..], room - 1, n - 1);
      if forall i :: 0 <= i < n ==> IsIdentChar(s[i]) {
        forall i | 0 <= i < n - 1 ensures IsIdentChar(s[1..][i]) { assert s[i + 1] == s[1..][i]; }
      }
      if forall i :: 0 <= i < n - 1 ==> IsIdentChar(s[1..][i]) {
        forall i | 0 <= i < n ensures IsIdentChar(s[i]) { assert i > 0 ==> s[i] == s[1..][i - 1]; }
      }
    }
  }

  /** Only names are read as identifiers. */
  lemma IdentIsName(s: string)
    ensures Ident(s).0 != [] ==> IsName(Ident(s).0)
  {
    var t := AfterTrivia(s);
    var u := if Peek(t) == '%' && t != [] then t[1..] else t;
    IdentLengthIs(u, MAX_IDENT, IdentLength(u, MAX_IDENT));
  }

  /** A name is read back whole from in front of anything that does not continue it. */
  lemma IdentReadsName(name: string, rest: string)
    requires IsName(name) && (rest == [] || !IsIdentChar(rest[0]))
    ensures Ident(name + rest) == (name, rest)
  {
    var s := name + rest;
    assert s[0] == name[0];
    assert AfterTrivia(s) == s;
    assert Peek(s) != '%';
    assert forall i :: 0 <= i < |name| ==> s[i] == name[i];
    IdentLengthIs(s, MAX_IDENT, |name|);
    assert s[..|name|] == name && s[|name|..] == rest;
  }

  /** The keyword stands at the front of `s` and no name continues it. */
  predicate StartsKeyword(s: string, keyword: string) {
    |keyword| <= |s| && s[..|keyword|] == keyword && (|keyword| < |s| ==> !IsIdentChar(s[|keyword|]))
  }

  predicate IsSpace(c: char) {
    IsBlank(c) || c == 11 as char || c == 12 as char
  }

  function Trim(s: string): string {
    TrimEnd(DropWhile(IsSpace, s))
  }

  function TrimEnd(s: string): string {
    if s != [] && IsSpace(s[|s| - 1]) then TrimEnd(s[..|s| - 1]) else s
  }
}
