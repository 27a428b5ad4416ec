/** The grammar of whole scopes: which entries a text declares, in order, and what is left behind them. */
module ScopeText {
  import opened Wrappers
  import opened ScanText
  import opened TypeText
  import opened DeclText
  import Naming

  const MAX_PACKAGE := 128
  const MAX_RAW := 512

  datatype Scope = TopScope | InterfaceScope | ResourceScope

  datatype ItemKind = Include | Import | Export

  datatype Entry =
    | PackageEntry(text: string)
    | UseEntry(scope: string, text: string)
    | TypeEntry(keyword: string, name: string, members: seq<Member>)
    | AliasEntry(member: Member)
    | FuncEntry(owner: string, name: string, kind: Naming.FuncKind, signature: Signature)
    | InterfaceEntry(name: string)
    | ResourceEntry(name: string)
    | WorldEntry(name: string)
    | WorldItemEntry(world: string, item: ItemKind, text: string)

  /** Entries and the rest; nothing but the rest; or an error. */
  datatype Verdict = Reads(items: seq<Entry>, rest: string) | Closes(rest: string) | Refuses

  predicate Shrinks(v: Verdict, s: string) {
    (v.Reads? ==> |v.rest| < |s|) && (v.Closes? ==> |v.rest| <= |s|)
  }

  function Joined(items: seq<Entry>, t: Verdict): (v: Verdict)
    ensures v.Reads? <==> t.Reads?
    ensures v.Reads? ==> v.rest == t.rest
    ensures !v.Reads? ==> v == t
  {
    if t.Reads? then Reads(items + t.items, t.rest) else t
  }

  // ---- Pieces ----

  function RawLength(s: string, limit: nat): (n: nat)
    ensures n <= |s| && n <= limit
  {
    if s == [] || s[0] == ';' || limit == 0 then 0 else 1 + RawLength(s[1..], limit - 1)
  }

  /** Raw text and the semicolon behind it. */
  function RawText(s: string, limit: nat): (r: Parsed<string>)
    ensures r.Some? ==> |r.value.1| < |s|
  {
    var t := AfterTrivia(s);
    var n := RawLength(t, limit);
    if Expect(t[n..], ';').None? then None else Some((t[..n], Expect(t[n..], ';').value))
  }

  function PackageText(s: string): (v: Verdict)
    ensures Shrinks(v, s) && !v.Closes?
  {
    match RawText(s, MAX_PACKAGE - 1)
    case None => Refuses
    case Some((raw, rest)) => if Trim(raw) == "" then Refuses else Reads([PackageEntry(Trim(raw))], rest)
  }

  function UseText(s: string, scope: string): (v: Verdict)
    ensures Shrinks(v, s) && !v.Closes?
  {
    if scope == "" then Refuses
    else
      match RawText(s, MAX_RAW - 1)
      case None => Refuses
      case Some((raw, rest)) => Reads([UseEntry(scope, raw)], rest)
  }

  function BracedText(s: string): (r: string)
    ensures |r| <= |s|
  {
    var t := AfterTrivia(s);
    if Peek(t) == '{' then AfterBalanced(t, '{', '}', 0) else t
  }

  /** Behind an import or export outside a world. */
  function SkippedText(s: string): (r: string)
    ensures |r| <= |s|
  {
    var t := DropWhile(c => c != '{' && c != ';', s);
    if Expect(t, ';').Some? then Expect(t, ';').value else BracedText(t)
  }

  function SemicolonText(s: string): (r: string)
    ensures |r| <= |s|
  {
    var t := DropWhile(IsBlank, s);
    if Peek(t) == ';' then t[1..] else s
  }

  /** With the semicolon behind it, if there is one, and with `more` declared after it. */
  function Ended(t: Verdict, more: seq<Entry>): (v: Verdict)
    ensures v.Reads? <==> t.Reads?
    ensures v.Reads? ==> |v.rest| <= |t.rest|
    ensures !v.Reads? ==> v == t
  {
    if t.Reads? then Reads(t.items + more, SemicolonText(t.rest)) else t
  }

  function TypeBodyText(s: string, keyword: string, shape: Shape, limit: nat): (v: Verdict)
    ensures Shrinks(v, s) && !v.Closes?
  {
    match BodyText(s, shape, limit)
    case None => Refuses
    case Some(((name, members), rest)) => Reads([TypeEntry(keyword, name, members)], rest)
  }

  function TypeAliasText(s: string): (v: Verdict)
    ensures Shrinks(v, s) && !v.Closes?
  {
    match AliasText(s)
    case None => Refuses
    case Some((m, rest)) => Reads([AliasEntry(m)], rest)
  }

  function ReferenceText(s: string, world: string, item: ItemKind): (v: Verdict)
    ensures Shrinks(v, s) && !v.Closes?
  {
    match RawText(s, MAX_RAW - 1)
    case None => Refuses
    case Some((raw, rest)) =>
      if Trim(raw) == "" then Refuses else Reads([WorldItemEntry(world, item, Trim(raw))], rest)
  }

  /** A function written out in a world, behind its keyword. */
  function InlineFuncText(s: string, world: string, item: ItemKind, name: string): (v: Verdict)
    ensures Shrinks(v, s) && !v.Closes?
  {
    match SignatureText(s, "")
    case None => Refuses
    case Some((signature, rest)) =>
      Reads([InterfaceEntry(name), FuncEntry(name, name, Naming.Free, signature), WorldItemEntry(world, item, name)],
            rest)
  }

  function FuncKindOf(f: FuncText, scope: Scope): Naming.FuncKind {
    if f.isStatic then Naming.Static else if scope.ResourceScope? then Naming.Method else Naming.Free
  }

  /** A constructor or a function, in the scopes that allow them. One that starts and goes wrong is no error:
      `Closes` then leaves the text behind the place where it went wrong. */
  function FunctionText(s: string, scope: Scope, owner: string): (v: Verdict)
    ensures Shrinks(v, s) && !v.Refuses? && (v.Closes? ==> v.rest == s || |v.rest| < |s|)
  {
    if scope.ResourceScope? && AfterKeyword(s, "constructor").0 then
      match ConstructorText(s, owner)
      case None => PlainFunctionText(SignatureStop(AfterKeyword(s, "constructor").1, owner), scope, owner)
      case Some((signature, rest)) => Reads([FuncEntry(owner, "constructor", Naming.Constructor, signature)], rest)
    else PlainFunctionText(s, scope, owner)
  }

  function PlainFunctionText(s: string, scope: Scope, owner: string): (v: Verdict)
    ensures Shrinks(v, s) && !v.Refuses? && (v.Closes? ==> v.rest == s || |v.rest| < |s|)
  {
    if scope.TopScope? || FuncHead(s, scope.ResourceScope?).None? then Closes(s)
    else
      match NamedFuncText(s, scope.ResourceScope?)
      case None => Closes(SignatureStop(FuncHead(s, scope.ResourceScope?).value.1, ""))
      case Some((f, rest)) => Reads([FuncEntry(owner, f.name, FuncKindOf(f, scope), f.signature)], rest)
  }

  // ---- Scopes ----

  /** The items of a scope, up to its closing brace, or to the end of the source. */
  function ScopeItems(s: string, scope: Scope, name: string, interface: string): (v: Verdict)
    ensures !v.Closes? && (v.Reads? ==> |v.rest| <= |s|)
    ensures v.Reads? && !scope.TopScope? ==> |v.rest| < |s|
    decreases |s|, 8
  {
    if s == [] then (if scope.TopScope? then Reads([], []) else Refuses)
    else
      match RoundText(s, scope, name, interface)
      case Closes(rest) => Reads([], rest)
      case Reads(items, rest) => Joined(items, ScopeItems(rest, scope, name, interface))
      case Refuses => Refuses
  }

  /** One round of a scope; `Closes` is its closing brace. */
  function RoundText(s: string, scope: Scope, name: string, interface: string): (v: Verdict)
    requires s != []
    ensures Shrinks(v, s) && (v.Closes? ==> |v.rest| < |s|)
    decreases |s|, 7
  {
    var t := AfterTrivia(s);
    if t == [] then Reads([], [])
    else if !scope.TopScope? && t[0] == '}' then Closes(t[1..])
    else DeclarationText(t, scope, name, interface)
  }

  /** A function, what a keyword introduces, or else one character that is passed over. */
  function DeclarationText(s: string, scope: Scope, name: string, interface: string): (v: Verdict)
    requires s != []
    ensures Shrinks(v, s) && !v.Closes?
    decreases |s|, 6
  {
    match FunctionText(s, scope, name)
    case Reads(items, rest) => Reads(items, rest)
    case Closes(rest) => KeywordOrPassText(AfterTrivia(rest), interface)
  }

  function KeywordOrPassText(s: string, interface: string): (v: Verdict)
    ensures (v.Reads? ==> |v.rest| < |s| || s == []) && !v.Closes?
    decreases |s|, 5
  {
    if KeywordText(s, interface) != Closes(s) then KeywordText(s, interface)
    else if s == [] then Reads([], [])
    else Reads([], s[1..])
  }

  /** What a keyword introduces; `Closes` when there is none. */
  function KeywordText(s: string, interface: string): (v: Verdict)
    ensures Shrinks(v, s) && (v.Closes? ==> v.rest == s)
    decreases |s|, 4
  {
    if PackageOrUseText(s, interface) != Closes(s) then PackageOrUseText(s, interface)
    else if WorldOrInterfaceText(s) != Closes(s) then WorldOrInterfaceText(s)
    else SkippedOrTypeText(s, interface)
  }

  function SkippedOrTypeText(s: string, interface: string): (v: Verdict)
    ensures Shrinks(v, s) && (v.Closes? ==> v.rest == s)
    decreases |s|, 3
  {
    if SkippedItemText(s) != Closes(s) then SkippedItemText(s) else TypeKeywordText(s, interface)
  }

  function PackageOrUseText(s: string, interface: string): (v: Verdict)
    ensures Shrinks(v, s) && (v.Closes? ==> v.rest == s)
  {
    if AfterKeyword(s, "package").0 then PackageText(AfterKeyword(s, "package").1)
    else if AfterKeyword(s, "use").0 then UseText(AfterKeyword(s, "use").1, interface)
    else Closes(s)
  }

  function WorldOrInterfaceText(s: string): (v: Verdict)
    ensures Shrinks(v, s) && (v.Closes? ==> v.rest == s)
    decreases |s|, 2
  {
    if AfterKeyword(s, "world").0 then WorldText(AfterKeyword(s, "world").1)
    else if AfterKeyword(s, "interface").0 then InterfaceText(AfterKeyword(s, "interface").1)
    else Closes(s)
  }

  function SkippedItemText(s: string): (v: Verdict)
    ensures Shrinks(v, s) && (v.Closes? ==> v.rest == s)
  {
    if AfterKeyword(s, "export").0 then Reads([], SkippedText(AfterKeyword(s, "export").1))
    else if AfterKeyword(s, "import").0 then Reads([], SkippedText(AfterKeyword(s, "import").1))
    else Closes(s)
  }

  function BodyKeywordText(s: string): (v: Verdict)
    ensures Shrinks(v, s) && (v.Closes? ==> v.rest == s)
  {
    if AfterKeyword(s, "record").0 then TypeBodyText(AfterKeyword(s, "record").1, "record", Typed, MAX_FIELDS)
    else if AfterKeyword(s, "variant").0 then TypeBodyText(AfterKeyword(s, "variant").1, "variant", Payload, MAX_CASES)
    else if AfterKeyword(s, "enum").0 then TypeBodyText(AfterKeyword(s, "enum").1, "enum", Plain, MAX_CASES)
    else if AfterKeyword(s, "flags").0 then TypeBodyText(AfterKeyword(s, "flags").1, "flags", Plain, MAX_CASES)
    else Closes(s)
  }

  function TypeKeywordText(s: string, interface: string): (v: Verdict)
    ensures Shrinks(v, s) && (v.Closes? ==> v.rest == s)
    decreases |s|, 2
  {
    if BodyKeywordText(s) != Closes(s) then BodyKeywordText(s)
    else if AfterKeyword(s, "type").0 then TypeAliasText(AfterKeyword(s, "type").1)
    else if AfterKeyword(s, "resource").0 then ResourceText(AfterKeyword(s, "resource").1, interface)
    else Closes(s)
  }

  function InterfaceText(s: string): (v: Verdict)
    ensures Shrinks(v, s) && !v.Closes?
    decreases |s|, 1
  {
    var (name, rest) := Ident(s);
    if name == "" then Refuses else InlineInterfaceText(rest, name)
  }

  /** The braced items of an interface whose name is known. */
  function InlineInterfaceText(s: string, name: string): (v: Verdict)
    ensures Shrinks(v, s) && !v.Closes?
    decreases |s|, 0
  {
    if Expect(s, '{').None? then Refuses
    else Joined([InterfaceEntry(name)], ScopeItems(Expect(s, '{').value, InterfaceScope, name, name))
  }

  function ResourceText(s: string, interface: string): (v: Verdict)
    ensures Shrinks(v, s) && !v.Closes?
    decreases |s|, 2
  {
    var (name, rest) := Ident(s);
    if name == "" then Refuses
    else Joined([ResourceEntry(name)], ResourceBodyText(rest, name, interface))
  }

  function ResourceBodyText(s: string, name: string, interface: string): (v: Verdict)
    ensures Shrinks(v, s) && !v.Closes?
    decreases |s|, 1
  {
    if Expect(s, ';').Some? then Reads([], Expect(s, ';').value)
    else ResourceItemsText(AfterTrivia(s), name, interface)
  }

  function ResourceItemsText(s: string, name: string, interface: string): (v: Verdict)
    ensures Shrinks(v, s) && !v.Closes?
    decreases |s|, 0
  {
    if Expect(s, '{').None? then Refuses
    else Ended(ScopeItems(Expect(s, '{').value, ResourceScope, name, interface), [])
  }

  function WorldText(s: string): (v: Verdict)
    ensures Shrinks(v, s) && !v.Closes?
    decreases |s|, 1
  {
    var (name, rest) := Ident(s);
    if name == "" then Refuses
    else Joined([WorldEntry(name)], WorldBodyText(rest, name))
  }

  function WorldBodyText(s: string, name: string): (v: Verdict)
    ensures Shrinks(v, s) && !v.Closes?
    decreases |s|, 0
  {
    if Expect(s, ';').Some? then Reads([], Expect(s, ';').value)
    else if Expect(s, '{').None? then Refuses
    else WorldItemsText(Expect(s, '{').value, name)
  }

  function WorldItemsText(s: string, world: string): (v: Verdict)
    ensures Shrinks(v, s) && !v.Closes?
    decreases |s|, 4
  {
    match WorldRoundText(s, world)
    case Closes(rest) => Reads([], rest)
    case Reads(items, rest) => Joined(items, WorldItemsText(rest, world))
    case Refuses => Refuses
  }

  /** One round of a world; `Closes` is its closing brace, with the semicolon behind it. */
  function WorldRoundText(s: string, world: string): (v: Verdict)
    ensures Shrinks(v, s) && (v.Closes? ==> |v.rest| < |s|)
    decreases |s|, 3
  {
    var t := AfterTrivia(s);
    if t == [] then Refuses
    else if t[0] == '}' then Closes(SemicolonText(t[1..]))
    else WorldItemText(t, world)
  }

  function WorldItemText(s: string, world: string): (v: Verdict)
    ensures Shrinks(v, s) && !v.Closes?
    decreases |s|, 2
  {
    if AfterKeyword(s, "include").0 then ReferenceText(AfterKeyword(s, "include").1, world, Include)
    else if AfterKeyword(s, "import").0 then EndpointText(AfterKeyword(s, "import").1, world, Import)
    else if AfterKeyword(s, "export").0 then EndpointText(AfterKeyword(s, "export").1, world, Export)
    else Refuses
  }

  /** An inline interface or function, or else a reference. */
  function EndpointText(s: string, world: string, item: ItemKind): (v: Verdict)
    ensures Shrinks(v, s) && !v.Closes?
    decreases |s|, 1
  {
    var (name, rest) := Ident(s);
    if name == "" || Expect(rest, ':').None? then ReferenceText(s, world, item)
    else
      var behind := Expect(rest, ':').value;
      if AfterKeyword(behind, "interface").0 then
        InlineItemText(AfterKeyword(behind, "interface").1, world, item, name)
      else if AfterKeyword(behind, "func").0 then InlineFuncText(AfterKeyword(behind, "func").1, world, item, name)
      else ReferenceText(s, world, item)
  }

  function InlineItemText(s: string, world: string, item: ItemKind, name: string): (v: Verdict)
    ensures Shrinks(v, s) && !v.Closes?
    decreases |s|, 1
  {
    Ended(InlineInterfaceText(s, name), [WorldItemEntry(world, item, name)])
  }
}
