/** The mutable scanner of the WIT front end: a position in the source with its line and column. */
module Scanners {
  import opened ScanText

  /** The line of the character behind `p`, counting from one. */
  function Line(p: string): nat {
    if p == [] then 1 else Line(p[..|p| - 1]) + (if p[|p| - 1] == '\n' then 1 else 0)
  }

  function Column(p: string): nat {
    if p == [] || p[|p| - 1] == '\n' then 1 else Column(p[..|p| - 1]) + 1
  }

  lemma {:induction false} LineCountsBreaks(p: string)
    ensures Line(p) == 1 + multiset(p)['\n']
  {
    if p != [] {
      LineCountsBreaks(p[..|p| - 1]);
      assert p == p[..|p| - 1] + [p[|p| - 1]];
    }
  }

  /** The column is the distance to the last line break, or to the start of the source. */
  lemma {:induction false} ColumnMeasuresLine(p: string, c: nat)
    ensures c == Column(p) <==>
            && 1 <= c <= |p| + 1
            && (forall i :: |p| + 1 - c <= i < |p| ==> p[i] != '\n')
            && (c <= |p| ==> p[|p| - c] == '\n')
  {
    if p != [] && p[|p| - 1] != '\n' && c > 0 {
      ColumnMeasuresLine(p[..|p| - 1], c - 1);
    }
  }

  class Scanner {
    const src: string
    var pos: nat
    var line: nat
    var col: nat

    ghost predicate Valid()
      reads this
    {
      pos <= |src| && line == Line(src[..pos]) && col == Column(src[..pos])
    }

    /** The text that is still to be read. */
    ghost function Rest(): string
      requires pos <= |src|
      reads this
    {
      src[pos..]
    }

    constructor (src: string)
      ensures Valid() && this.src == src && pos == 0 && Rest() == src
    {
      this.src := src;
      pos, line, col := 0, 1, 1;
    }

    /** A probe: an independent scanner at the same place. */
    constructor Copy(s: Scanner)
      requires s.Valid()
      ensures Valid() && src == s.src && pos == s.pos && Rest() == s.Rest()
    {
      src, pos, line, col := s.src, s.pos, s.line, s.col;
    }

    /** Adopting a probe's place. */
    method Accept(probe: Scanner)
      requires Valid() && probe.Valid() && probe.src == src
      modifies this
      ensures Valid() && Rest() == probe.Rest()
    {
      pos, line, col := probe.pos, probe.line, probe.col;
    }

    function Eof(): bool
      reads this
    {
      pos >= |src|
    }

    function PeekChar(): (c: char)
      requires pos <= |src|
      reads this
      ensures c == Peek(Rest())
    {
      if Eof() then '\0' else src[pos]
    }

    /** The character `k` behind the current one, and whether there is one. */
    predicate At(k: nat, c: char)
      requires pos <= |src|
      reads this
    {
      pos + k < |src| && src[pos + k] == c
    }

    method Advance() returns (c: char)
      requires Valid()
      modifies this
      ensures Valid()
      ensures c == Peek(old(Rest()))
      ensures Rest() == if old(Rest()) == [] then [] else old(Rest())[1..]
    {
      if Eof() {
        return '\0';
      }
      c := src[pos];
      assert src[..pos + 1][..pos] == src[..pos];
      pos := pos + 1;
      if c == '\n' {
        line, col := line + 1, 1;
      } else {
        col := col + 1;
      }
    }

    method AdvanceWhile(p: char -> bool)
      requires Valid()
      modifies this
      ensures Valid() && Rest() == DropWhile(p, old(Rest()))
    {
      while !Eof() && p(PeekChar())
        invariant Valid()
        invariant DropWhile(p, Rest()) == DropWhile(p, old(Rest()))
        decreases |Rest()|
      {
        var _ := Advance();
      }
    }

    method SkipBalanced(open: char, close: char)
      requires Valid() && open != '\0'
      modifies this
      ensures Valid()
      ensures Rest() == if Peek(old(Rest())) == open then AfterBalanced(old(Rest()), open, close, 0) else old(Rest())
    {
      if PeekChar() != open {
        return;
      }
      var depth := 0;
      while !Eof()
        invariant Valid()
        invariant AfterBalanced(Rest(), open, close, depth) == AfterBalanced(old(Rest()), open, close, 0)
        decreases |Rest()|
      {
        var c := Advance();
        if c == open {
          depth := depth + 1;
        } else if c == close {
          depth := depth - 1;
          if depth <= 0 {
            return;
          }
        }
      }
    }

    method SkipBracedBlock()
      requires Valid()
      modifies this
      ensures Valid()
      ensures var t := AfterTrivia(old(Rest()));
              Rest() == if Peek(t) == '{' then AfterBalanced(t, '{', '}', 0) else t
    {
      SkipWhitespace();
      SkipBalanced('{', '}');
    }

    method SkipAttribute()
      requires Valid() && Peek(Rest()) == '@' && Rest() != []
      modifies this
      ensures Valid() && Rest() == AfterAttribute(old(Rest()))
    {
      var _ := Advance();
      AdvanceWhile(IsAttributeChar);
      AdvanceWhile(IsBlank);
      SkipBalanced('(', ')');
    }

    method SkipLineComment()
      requires Valid() && StartsLineComment(Rest())
      modifies this
      ensures Valid() && Rest() == DropWhile(c => c != '\n', old(Rest())[2..])
    {
      ghost var s := Rest();
      assert s[1..][0] == '/' && s[1..][1..] == s[2..];
      assert DropWhile(c => c != '\n', s) == DropWhile(c => c != '\n', s[2..]);
      AdvanceWhile(c => c != '\n');
    }

    method SkipBlockComment()
      requires Valid() && StartsBlockComment(Rest())
      modifies this
      ensures Valid() && Rest() == AfterBlockComment(old(Rest())[2..])
    {
      var _ := Advance();
      var _ := Advance();
      ghost var body := Rest();
      while !Eof()
        invariant Valid()
        invariant AfterBlockComment(Rest()) == AfterBlockComment(body)
        decreases |Rest()|
      {
        if At(0, '*') && At(1, '/') {
          var _ := Advance();
          var _ := Advance();
          return;
        }
        var _ := Advance();
      }
    }

    method SkipWhitespace()
      requires Valid()
      modifies this
      ensures Valid() && Rest() == AfterTrivia(old(Rest()))
    {
      while !Eof()
        invariant Valid()
        invariant AfterTrivia(Rest()) == AfterTrivia(old(Rest()))
        decreases |Rest()|
      {
        if IsBlank(PeekChar()) {
          var _ := Advance();
        } else if At(0, '/') && At(1, '/') {
          SkipLineComment();
        } else if At(0, '/') && At(1, '*') {
          SkipBlockComment();
        } else if At(0, '@') {
          SkipAttribute();
        } else {
          break;
        }
      }
    }

    method ConsumeAttributeText() returns (text: string)
      requires Valid() && Peek(Rest()) == '@' && Rest() != []
      modifies this
      ensures Valid() && Rest() == AfterAttribute(old(Rest()))
      ensures text == Trim(AttributeText(old(Rest())))
    {
      var start := pos;
      SkipAttribute();
      ghost var all := old(Rest());
      assert src[start..pos] == all[..|all| - |Rest()|];
      return Trim(src[start..pos]);
    }

    /** Collects the attributes in front of a declaration and stops where plain skipping would. */
    method ConsumeLeadingMetadata() returns (fragments: seq<string>)
      requires Valid()
      modifies this
      ensures Valid() && Rest() == AfterTrivia(old(Rest()))
      ensures fragments == Attributes(old(Rest()))
    {
      fragments := [];
      while !Eof()
        invariant Valid()
        invariant AfterTrivia(Rest()) == AfterTrivia(old(Rest()))
        invariant fragments + Attributes(Rest()) == Attributes(old(Rest()))
        decreases |Rest()|
      {
        if IsBlank(PeekChar()) {
          var _ := Advance();
        } else if At(0, '/') && At(1, '/') {
          SkipLineComment();
        } else if At(0, '/') && At(1, '*') {
          SkipBlockComment();
        } else if At(0, '@') {
          var text := ConsumeAttributeText();
          fragments := fragments + [text];
        } else {
          break;
        }
      }
    }

    method MatchChar(expected: char) returns (ok: bool)
      requires Valid() && expected != '\0'
      modifies this
      ensures Valid()
      ensures var t := AfterTrivia(old(Rest())); ok == (Peek(t) == expected) && Rest() == if ok then t[1..] else t
    {
      SkipWhitespace();
      if PeekChar() != expected {
        return false;
      }
      var _ := Advance();
      return true;
    }

    method MatchTrailingSemicolon() returns (ok: bool)
      requires Valid()
      modifies this
      ensures Valid()
      ensures var t := DropWhile(IsBlank, old(Rest()));
              ok == (Peek(t) == ';') && Rest() == if ok then t[1..] else old(Rest())
    {
      var probe := new Scanner.Copy(this);
      probe.AdvanceWhile(IsBlank);
      if probe.PeekChar() != ';' {
        return false;
      }
      Accept(probe);
      var _ := Advance();
      return true;
    }

    method MatchArrow() returns (ok: bool)
      requires Valid()
      modifies this
      ensures Valid()
      ensures var t := AfterTrivia(old(Rest()));
              ok == (|t| > 1 && t[0] == '-' && t[1] == '>') && Rest() == if ok then t[2..] else t
    {
      SkipWhitespace();
      if !At(0, '-') || !At(1, '>') {
        return false;
      }
      var _ := Advance();
      var _ := Advance();
      return true;
    }

    method ScanIdent() returns (name: string)
      requires Valid()
      modifies this
      ensures Valid() && (name, Rest()) == Ident(old(Rest()))
    {
      SkipWhitespace();
      if !Eof() && PeekChar() == '%' {
        var _ := Advance();
      }
      name := TakeIdentChars();
    }

    method TakeIdentChars() returns (name: string)
      requires Valid()
      modifies this
      ensures Valid()
      ensures var n := IdentLength(old(Rest()), MAX_IDENT); name == old(Rest())[..n] && Rest() == old(Rest())[n..]
    {
      name := "";
      ghost var u, n := Rest(), 0;
      while !Eof() && |name| < MAX_IDENT && IsIdentChar(PeekChar())
        invariant Valid() && n == |name| <= MAX_IDENT && n <= |u|
        invariant name == u[..n] && Rest() == u[n..]
        invariant forall i :: 0 <= i < n ==> IsIdentChar(u[i])
        decreases |Rest()|
      {
        var c := Advance();
        name, n := name + [c], n + 1;
      }
      IdentLengthIs(u, MAX_IDENT, n);
    }

    method MatchKeyword(keyword: string) returns (ok: bool)
      requires Valid()
      modifies this
      ensures Valid()
      ensures ok == StartsKeyword(AfterTrivia(old(Rest())), keyword)
      ensures Rest() == if ok then AfterTrivia(old(Rest()))[|keyword|..] else AfterTrivia(old(Rest()))
    {
      SkipWhitespace();
      ghost var t := Rest();
      var end := pos + |keyword|;
      if end > |src| || src[pos..end] != keyword || (end < |src| && IsIdentChar(src[end])) {
        assert end <= |src| ==> src[pos..end] == t[..|keyword|];
        return false;
      }
      assert src[pos..end] == t[..|keyword|];
      for i := 0 to |keyword|
        invariant Valid() && Rest() == t[i..]
      {
        var _ := Advance();
      }
      return true;
    }
  }

  function AttributeText(s: string): string
    requires s != []
  {
    s[..|s| - |AfterAttribute(s)|]
  }

  /** The attributes in front of a declaration, comments left out. */
  function Attributes(s: string): seq<string>
    decreases |s|
  {
    if s == [] then []
    else if IsBlank(s[0]) then Attributes(s[1..])
    else if StartsLineComment(s) then Attributes(DropWhile(c => c != '\n', s[2..]))
    else if StartsBlockComment(s) then Attributes(AfterBlockComment(s[2..]))
    else if s[0] == '@' then [Trim(AttributeText(s))] + Attributes(AfterAttribute(s))
    else []
  }
}
