/** Whole files written out as text and read back by the grammar of scopes, and what that grammar drops. */
module ScopeRender {
  import opened Wrappers
  import opened ScanText
  import opened TypeText
  import opened DeclText
  import opened ScopeText
  import opened DeclRender
  import Naming

  // ---- Files ----

  /** A function of a resource. */
  datatype Method = Method(kind: Naming.FuncKind, name: string, signature: Signature)

  datatype Item =
    | TypeItem(keyword: string, name: string, members: seq<Member>)
    | AliasItem(name: string, target: Tree)
    | FuncItem(name: string, signature: Signature)
    | UseItem(text: string)
    | ResourceItem(name: string, methods: seq<Method>)

  datatype Interface = Interface(name: string, items: seq<Item>)

  datatype File = File(package: string, interfaces: seq<Interface>)

  function ShapeOf(keyword: string): Shape {
    if keyword == "record" then Typed else if keyword == "variant" then Payload else Plain
  }

  function LimitOf(keyword: string): nat {
    if keyword == "record" then MAX_FIELDS else MAX_CASES
  }

  predicate IsTypeWord(keyword: string) {
    keyword in ["record", "variant", "enum", "flags"]
  }

  /** Text that is read as it stands, up to a semicolon. */
  predicate IsRaw(text: string, limit: nat) {
    0 < |text| <= limit && IsIdentChar(text[0]) && ';' !in text
  }

  /** A constructor has the name of its keyword and says what it returns; nothing else has that name. */
  predicate FitsMethod(m: Method) {
    && IsPlainSignature(m.signature)
    && match m.kind
       case Constructor => m.name == "constructor" && m.signature.result.Some?
       case Static => IsName(m.name) && m.name != "constructor"
       case Method => IsName(m.name) && m.name != "constructor"
       case Free => false
  }

  predicate FitsItem(item: Item) {
    match item
    case TypeItem(keyword, name, members) =>
      IsTypeWord(keyword) && IsName(name) && AllFit(members, ShapeOf(keyword)) && |members| <= LimitOf(keyword)
    case AliasItem(name, target) => IsName(name) && IsWritable(target)
    case FuncItem(name, signature) => IsName(name) && IsPlainSignature(signature)
    case UseItem(text) => IsRaw(text, MAX_RAW - 1)
    case ResourceItem(name, methods) => IsName(name) && forall i :: 0 <= i < |methods| ==> FitsMethod(methods[i])
  }

  predicate FitsInterface(interface: Interface) {
    IsName(interface.name) && forall i :: 0 <= i < |interface.items| ==> FitsItem(interface.items[i])
  }

  predicate FitsFile(file: File) {
    && IsRaw(file.package, MAX_PACKAGE - 1) && Trim(file.package) == file.package
    && forall i :: 0 <= i < |file.interfaces| ==> FitsInterface(file.interfaces[i])
  }

  // ---- What they declare ----

  function MethodEntries(methods: seq<Method>, owner: string): seq<Entry> {
    if methods == [] then []
    else [FuncEntry(owner, methods[0].name, methods[0].kind, methods[0].signature)] + MethodEntries(methods[1..], owner)
  }

  function ItemEntries(item: Item, interface: string): seq<Entry> {
    match item
    case TypeItem(keyword, name, members) => [TypeEntry(keyword, name, members)]
    case AliasItem(name, target) => [AliasEntry(Member(name, Some(target)))]
    case FuncItem(name, signature) => [FuncEntry(interface, name, Naming.Free, signature)]
    case UseItem(text) => [UseEntry(interface, text)]
    case ResourceItem(name, methods) => [ResourceEntry(name)] + MethodEntries(methods, name)
  }

  function ItemsEntries(items: seq<Item>, interface: string): seq<Entry> {
    if items == [] then [] else ItemEntries(items[0], interface) + ItemsEntries(items[1..], interface)
  }

  function InterfaceEntries(interfaces: seq<Interface>): seq<Entry> {
    if interfaces == [] then []
    else
      [InterfaceEntry(interfaces[0].name)] + ItemsEntries(interfaces[0].items, interfaces[0].name)
      + InterfaceEntries(interfaces[1..])
  }

  function FileEntries(file: File): seq<Entry> {
    [PackageEntry(file.package)] + InterfaceEntries(file.interfaces)
  }

  // ---- How they are written ----

  /** A keyword, a name and an opening brace. */
  function HeadOut(keyword: string, name: string, rest: string): string {
    keyword + (" " + (name + (" " + ("{" + rest))))
  }

  function FuncOut(name: string, isStatic: bool, signature: Signature, rest: string): string {
    var func := "func" + SignatureOut(signature, rest);
    name + (":" + (" " + (if isStatic then "static" + (" " + func) else func)))
  }

  function MethodOut(m: Method, rest: string): string {
    if m.kind.Constructor? then "constructor" + SignatureOut(m.signature, rest)
    else FuncOut(m.name, m.kind.Static?, m.signature, rest)
  }

  function MethodsOut(methods: seq<Method>, rest: string): string {
    if methods == [] then "}" + rest else MethodOut(methods[0], " " + MethodsOut(methods[1..], rest))
  }

  function ItemOut(item: Item, rest: string): string {
    match item
    case TypeItem(keyword, name, members) => HeadOut(keyword, name, " " + MembersOut(members, ShapeOf(keyword), rest))
    case AliasItem(name, target) =>
      "type" + (" " + (name + (" " + ("=" + (" " + (Print(target) + (";" + rest)))))))
    case FuncItem(name, signature) => FuncOut(name, false, signature, rest)
    case UseItem(text) => "use" + (" " + (text + (";" + rest)))
    case ResourceItem(name, methods) => HeadOut("resource", name, " " + MethodsOut(methods, rest))
  }

  function ItemsOut(items: seq<Item>, rest: string): string {
    if items == [] then "}" + rest else ItemOut(items[0], " " + ItemsOut(items[1..], rest))
  }

  function InterfacesOut(interfaces: seq<Interface>): string {
    if interfaces == [] then ""
    else " " + HeadOut("interface", interfaces[0].name,
                       " " + ItemsOut(interfaces[0].items, InterfacesOut(interfaces[1..])))
  }

  function FileOut(file: File): string {
    "package" + (" " + (file.package + (";" + InterfacesOut(file.interfaces))))
  }

  // ---- Pieces that come back ----

  /** A name comes next. */
  predicate Begins(s: string) {
    s != [] && IsIdentChar(s[0]) && AfterTrivia(s) == s
  }

  lemma KeywordsAreNames()
    ensures IsName("package") && IsName("use") && IsName("world") && IsName("interface") && IsName("export")
            && IsName("import")
    ensures IsName("record") && IsName("variant") && IsName("enum") && IsName("flags") && IsName("type")
            && IsName("resource")
    ensures IsName("func") && IsName("static") && IsName("constructor")
  {
  }

  lemma BraceComesBack(name: string, rest: string)
    requires IsName(name)
    ensures var (n, behind) := Ident(" " + (name + (" " + ("{" + rest))));
            && n == name && AfterTrivia(behind) == "{" + rest
            && Expect(behind, '{') == Expect("{" + rest, '{') == Some(rest) && Expect(behind, ';').None?
  {
    var brace := "{" + rest;
    MarkStays(brace);
    assert brace[1..] == rest;
    BlankGoes(brace);
    IdentReadsName(name, " " + brace);
    BlankGoes(name + (" " + brace));
  }

  lemma RawIs(text: string, behind: string, limit: nat)
    requires |text| <= limit && ';' !in text
    ensures RawLength(text + (";" + behind), limit) == |text|
    decreases |text|
  {
    var s := text + (";" + behind);
    if text != [] {
      assert s[0] == text[0] && s[1..] == text[1..] + (";" + behind);
      RawIs(text[1..], behind, limit - 1);
    } else {
      assert s[0] == ';';
    }
  }

  lemma RawComesBack(text: string, limit: nat, rest: string)
    requires IsRaw(text, limit)
    ensures RawText(" " + (text + (";" + rest)), limit) == Some((text, rest))
  {
    var s := text + (";" + rest);
    BlankGoes(s);
    assert s[0] == text[0];
    assert AfterTrivia(s) == s;
    RawIs(text, rest, limit);
    assert s[..|text|] == text && s[|text|..] == ";" + rest;
    MarkStays(";" + rest);
    assert (";" + rest)[1..] == rest;
  }

  lemma BodyComesBack(keyword: string, name: string, members: seq<Member>, rest: string)
    requires FitsItem(TypeItem(keyword, name, members))
    ensures var shape := ShapeOf(keyword);
            var body := "{" + (" " + MembersOut(members, shape, rest));
            BodyText(" " + (name + (" " + body)), shape, LimitOf(keyword)) == Some(((name, members), rest))
  {
    var shape, limit := ShapeOf(keyword), LimitOf(keyword);
    BraceComesBack(name, " " + MembersOut(members, shape, rest));
    MembersComeBack(members, shape, 0, limit, rest);
    BlankBeforeMembers(MembersOut(members, shape, rest), shape, 0, limit);
  }

  lemma AliasComesBack(name: string, target: Tree, rest: string)
    requires IsName(name) && IsWritable(target)
    ensures AliasText(" " + (name + (" " + ("=" + (" " + (Print(target) + (";" + rest))))))) ==
            Some((Member(name, Some(target)), rest))
  {
    var typed := Print(target) + (";" + rest);
    var equals := "=" + (" " + typed);
    BlankGoes(name + (" " + equals));
    IdentReadsName(name, " " + equals);
    BlankGoes(equals);
    MarkStays(equals);
    assert equals[1..] == " " + typed;
    BlankBeforeType(typed);
    MarkStays(";" + rest);
    assert (";" + rest)[1..] == rest;
    TypeComesBack(target, ";" + rest);
  }

  lemma FuncHeadComesBack(name: string, isStatic: bool, signature: string, inResource: bool)
    requires IsName(name) && EndsWord(signature) && (isStatic ==> inResource)
    ensures var func := "func" + signature;
            var s := name + (":" + (" " + (if isStatic then "static" + (" " + func) else func)));
            && FuncHead(s, inResource) == Some(((name, isStatic), signature)) && Begins(s)
            && forall k :: IsName(k) && k != name ==> !AfterKeyword(s, k).0
  {
    var func := "func" + signature;
    var words := if isStatic then "static" + (" " + func) else func;
    var s := name + (":" + (" " + words));
    NameStays(name, ":" + (" " + words));
    IdentReadsName(name, ":" + (" " + words));
    MarkStays(":" + (" " + words));
    assert (":" + (" " + words))[1..] == " " + words;
    WordsComeBack(isStatic, signature, inResource);
    forall k | IsName(k) && k != name ensures !AfterKeyword(s, k).0 {
      WordIsKeyword(name, ":" + (" " + words), k);
    }
  }

  lemma FuncComesBack(name: string, isStatic: bool, signature: Signature, inResource: bool, rest: string)
    requires IsName(name) && IsPlainSignature(signature) && (isStatic ==> inResource)
    ensures var s := FuncOut(name, isStatic, signature, rest);
            && FuncHead(s, inResource).Some? && Begins(s)
            && NamedFuncText(s, inResource) == Some((FuncText(name, isStatic, signature), rest))
            && forall k :: IsName(k) && k != name ==> !AfterKeyword(s, k).0
  {
    SignatureComesBack(signature, "", rest);
    FuncHeadComesBack(name, isStatic, SignatureOut(signature, rest), inResource);
  }

  lemma WordsComeBack(isStatic: bool, signature: string, inResource: bool)
    requires EndsWord(signature) && (isStatic ==> inResource)
    ensures var func := "func" + signature;
            FuncKeyword(" " + (if isStatic then "static" + (" " + func) else func), inResource) ==
            Some((isStatic, signature))
  {
    var func := "func" + signature;
    KeywordsAreNames();
    WordIsKeyword("func", signature, "func");
    WordIsKeyword("func", signature, "static");
    BlankGoes(func);
    WordIsKeyword("static", " " + func, "static");
    BlankGoes("static" + (" " + func));
  }

  // ---- Rounds of a scope ----

  lemma RoundReads(u: string, scope: Scope, name: string, interface: string, items: seq<Entry>, rest: string)
    requires Begins(u) && DeclarationText(u, scope, name, interface) == Reads(items, rest)
    ensures ScopeItems(" " + u, scope, name, interface) == Joined(items, ScopeItems(rest, scope, name, interface))
    ensures ScopeItems(u, scope, name, interface) == Joined(items, ScopeItems(rest, scope, name, interface))
  {
    BlankGoes(u);
    assert RoundText(" " + u, scope, name, interface) == Reads(items, rest);
    assert RoundText(u, scope, name, interface) == Reads(items, rest);
  }

  lemma RoundCloses(rest: string, scope: Scope, name: string, interface: string)
    requires !scope.TopScope?
    ensures ScopeItems(" " + ("}" + rest), scope, name, interface) == Reads([], rest)
  {
    BlankGoes("}" + rest);
    MarkStays("}" + rest);
    assert ("}" + rest)[1..] == rest;
    assert RoundText(" " + ("}" + rest), scope, name, interface) == Closes(rest);
  }

  /** Where no colon follows the first word, no function starts. */
  lemma NoFunctionHere(s: string, scope: Scope, owner: string)
    requires Expect(Ident(s).1, ':').None? && !scope.ResourceScope?
    ensures FunctionText(s, scope, owner) == Closes(s)
  {
  }

  /** Of all words, `s` starts with this one. */
  ghost predicate OnlyWord(s: string, word: string) {
    forall k :: IsName(k) ==> (AfterKeyword(s, k).0 <==> word == k)
  }

  lemma FirstWord(word: string, rest: string)
    requires IsName(word) && EndsWord(rest)
    ensures OnlyWord(word + rest, word)
  {
    forall k | IsName(k) ensures AfterKeyword(word + rest, k).0 <==> word == k {
      WordIsKeyword(word, rest, k);
    }
  }

  lemma KeywordLeads(s: string, word: string, interface: string)
    requires OnlyWord(s, word)
    ensures var rest := AfterKeyword(s, word).1;
            && (word == "package" ==> KeywordText(s, interface) == PackageText(rest))
            && (word == "use" ==> KeywordText(s, interface) == UseText(rest, interface))
            && (word == "interface" ==> KeywordText(s, interface) == InterfaceText(rest))
  {
    KeywordsAreNames();
  }

  /** What the keyword of a type introduces. */
  function TypeLine(word: string, rest: string, interface: string): Verdict {
    if IsTypeWord(word) then TypeBodyText(rest, word, ShapeOf(word), LimitOf(word))
    else if word == "type" then TypeAliasText(rest)
    else ResourceText(rest, interface)
  }

  lemma TypeKeywordLeads(s: string, word: string, interface: string)
    requires OnlyWord(s, word) && (IsTypeWord(word) || word == "type" || word == "resource")
    ensures KeywordText(s, interface) == TypeLine(word, AfterKeyword(s, word).1, interface)
  {
    NoOther(s, word);
    TypeKeywordComes(s, interface);
    TypeKeywordChosen(s, word, interface);
  }

  /** None of the keywords that are tried before those of types. */
  predicate NoEarlyKeyword(s: string) {
    && !AfterKeyword(s, "package").0 && !AfterKeyword(s, "use").0 && !AfterKeyword(s, "world").0
    && !AfterKeyword(s, "interface").0 && !AfterKeyword(s, "export").0 && !AfterKeyword(s, "import").0
  }

  lemma NoOther(s: string, word: string)
    requires OnlyWord(s, word) && (IsTypeWord(word) || word == "type" || word == "resource")
    ensures NoEarlyKeyword(s)
  {
    KeywordsAreNames();
  }

  lemma TypeKeywordComes(s: string, interface: string)
    requires NoEarlyKeyword(s)
    ensures KeywordText(s, interface) == TypeKeywordText(s, interface)
  {
  }

  /** How the keywords of types are tried, one after the other. */
  predicate TypeWordsAre(s: string, word: string) {
    && (AfterKeyword(s, "record").0 <==> word == "record") && (AfterKeyword(s, "variant").0 <==> word == "variant")
    && (AfterKeyword(s, "enum").0 <==> word == "enum") && (AfterKeyword(s, "flags").0 <==> word == "flags")
    && (AfterKeyword(s, "type").0 <==> word == "type") && (AfterKeyword(s, "resource").0 <==> word == "resource")
  }

  lemma TypeKeywordChosen(s: string, word: string, interface: string)
    requires OnlyWord(s, word) && (IsTypeWord(word) || word == "type" || word == "resource")
    ensures TypeKeywordText(s, interface) == TypeLine(word, AfterKeyword(s, word).1, interface)
  {
    KeywordsAreNames();
    assert TypeWordsAre(s, word);
    TypeWordTaken(s, word, interface);
  }

  lemma TypeWordTaken(s: string, word: string, interface: string)
    requires TypeWordsAre(s, word)
    requires IsTypeWord(word) || word == "type" || word == "resource"
    ensures TypeKeywordText(s, interface) == TypeLine(word, AfterKeyword(s, word).1, interface)
  {
  }

  lemma KeywordDeclares(s: string, scope: Scope, name: string, interface: string)
    requires Begins(s) && FunctionText(s, scope, name) == Closes(s) && KeywordText(s, interface).Reads?
    ensures DeclarationText(s, scope, name, interface) == KeywordText(s, interface)
  {
  }

  // ---- Items ----

  /** A line that starts with the keyword of a type declares what this keyword introduces. */
  lemma LineReads(word: string, behind: string, interface: string)
    requires (IsTypeWord(word) || word == "type" || word == "resource") && Expect(" " + behind, ':').None?
    requires TypeLine(word, " " + behind, interface).Reads?
    ensures var s := word + (" " + behind);
            && Begins(s)
            && DeclarationText(s, InterfaceScope, interface, interface) == TypeLine(word, " " + behind, interface)
  {
    var s := word + (" " + behind);
    KeywordsAreNames();
    LineComesBack(word, behind);
    NoFunctionHere(s, InterfaceScope, interface);
    FirstWord(word, " " + behind);
    TypeKeywordLeads(s, word, interface);
    KeywordDeclares(s, InterfaceScope, interface, interface);
  }

  /** No colon stands behind the name that follows a keyword. */
  lemma NoColonBehind(name: string, rest: string)
    requires IsName(name)
    ensures Expect(" " + (name + (" " + rest)), ':').None?
  {
    BlankGoes(name + (" " + rest));
    NameStays(name, " " + rest);
  }

  lemma TypeItemReads(keyword: string, name: string, members: seq<Member>, interface: string, rest: string)
    requires FitsItem(TypeItem(keyword, name, members))
    ensures var s := ItemOut(TypeItem(keyword, name, members), rest);
            && Begins(s)
            && DeclarationText(s, InterfaceScope, interface, interface) ==
               Reads([TypeEntry(keyword, name, members)], rest)
  {
    var braced := "{" + (" " + MembersOut(members, ShapeOf(keyword), rest));
    BodyComesBack(keyword, name, members, rest);
    NoColonBehind(name, braced);
    LineReads(keyword, name + (" " + braced), interface);
  }

  lemma AliasItemReads(name: string, target: Tree, interface: string, rest: string)
    requires FitsItem(AliasItem(name, target))
    ensures var s := ItemOut(AliasItem(name, target), rest);
            && Begins(s)
            && DeclarationText(s, InterfaceScope, interface, interface) ==
               Reads([AliasEntry(Member(name, Some(target)))], rest)
  {
    var equals := "=" + (" " + (Print(target) + (";" + rest)));
    AliasComesBack(name, target, rest);
    NoColonBehind(name, equals);
    LineReads("type", name + (" " + equals), interface);
  }

  lemma LineComesBack(word: string, rest: string)
    requires IsName(word)
    ensures var s := word + (" " + rest);
            Begins(s) && AfterKeyword(s, word) == (true, " " + rest) && Ident(s) == (word, " " + rest)
  {
    WordIsKeyword(word, " " + rest, word);
    NameStays(word, " " + rest);
    IdentReadsName(word, " " + rest);
  }

  lemma UseItemReads(text: string, interface: string, rest: string)
    requires FitsItem(UseItem(text)) && interface != ""
    ensures var s := ItemOut(UseItem(text), rest);
            && Begins(s)
            && DeclarationText(s, InterfaceScope, interface, interface) == Reads([UseEntry(interface, text)], rest)
  {
    var raw := text + (";" + rest);
    var s := "use" + (" " + raw);
    KeywordsAreNames();
    LineComesBack("use", raw);
    BlankGoes(raw);
    assert raw[0] == text[0];
    NoFunctionHere(s, InterfaceScope, interface);
    FirstWord("use", " " + raw);
    KeywordLeads(s, "use", interface);
    RawComesBack(text, MAX_RAW - 1, rest);
    KeywordDeclares(s, InterfaceScope, interface, interface);
  }

  lemma FuncItemReads(name: string, signature: Signature, interface: string, rest: string)
    requires FitsItem(FuncItem(name, signature))
    ensures var s := ItemOut(FuncItem(name, signature), rest);
            && Begins(s)
            && DeclarationText(s, InterfaceScope, interface, interface) ==
               Reads([FuncEntry(interface, name, Naming.Free, signature)], rest)
  {
    FuncComesBack(name, false, signature, false, rest);
  }

  lemma MethodReads(m: Method, owner: string, interface: string, rest: string)
    requires FitsMethod(m)
    ensures var s := MethodOut(m, rest);
            && Begins(s)
            && DeclarationText(s, ResourceScope, owner, interface) ==
               Reads([FuncEntry(owner, m.name, m.kind, m.signature)], rest)
  {
    if m.kind.Constructor? {
      ConstructorReads(m.signature, owner, interface, rest);
    } else {
      OtherMethodReads(m.name, m.kind.Static?, m.signature, owner, interface, rest);
    }
  }

  lemma OtherMethodReads(name: string, isStatic: bool, signature: Signature, owner: string, interface: string,
                         rest: string)
    requires IsName(name) && name != "constructor" && IsPlainSignature(signature)
    ensures var s := FuncOut(name, isStatic, signature, rest);
            && Begins(s)
            && DeclarationText(s, ResourceScope, owner, interface) ==
               Reads([FuncEntry(owner, name, if isStatic then Naming.Static else Naming.Method, signature)], rest)
  {
    KeywordsAreNames();
    FuncComesBack(name, isStatic, signature, true, rest);
    PlainMethodReads(FuncOut(name, isStatic, signature, rest), FuncText(name, isStatic, signature), owner, interface,
                     rest);
  }

  lemma ConstructorReads(signature: Signature, owner: string, interface: string, rest: string)
    requires IsPlainSignature(signature) && signature.result.Some?
    ensures var s := "constructor" + SignatureOut(signature, rest);
            && Begins(s)
            && DeclarationText(s, ResourceScope, owner, interface) ==
               Reads([FuncEntry(owner, "constructor", Naming.Constructor, signature)], rest)
  {
    KeywordsAreNames();
    SignatureComesBack(signature, owner, rest);
    WordIsKeyword("constructor", SignatureOut(signature, rest), "constructor");
    NameStays("constructor", SignatureOut(signature, rest));
  }

  lemma PlainMethodReads(s: string, f: FuncText, owner: string, interface: string, rest: string)
    requires Begins(s) && !AfterKeyword(s, "constructor").0
    requires FuncHead(s, true).Some? && NamedFuncText(s, true) == Some((f, rest))
    ensures DeclarationText(s, ResourceScope, owner, interface) ==
            Reads([FuncEntry(owner, f.name, FuncKindOf(f, ResourceScope), f.signature)], rest)
  {
  }

  lemma {:induction false} MethodsRead(methods: seq<Method>, owner: string, interface: string, rest: string)
    requires forall i :: 0 <= i < |methods| ==> FitsMethod(methods[i])
    ensures ScopeItems(" " + MethodsOut(methods, rest), ResourceScope, owner, interface) ==
            Reads(MethodEntries(methods, owner), rest)
  {
    if methods == [] {
      RoundCloses(rest, ResourceScope, owner, interface);
    } else {
      var m := methods[0];
      var more := " " + MethodsOut(methods[1..], rest);
      MethodReads(m, owner, interface, more);
      RoundReads(MethodOut(m, more), ResourceScope, owner, interface,
                 [FuncEntry(owner, m.name, m.kind, m.signature)], more);
      MethodsRead(methods[1..], owner, interface, rest);
    }
  }

  /** No semicolon comes next, so none is taken for the one a resource may end in. */
  predicate NoSemicolon(s: string) {
    SemicolonText(s) == s
  }

  lemma ResourceItemReads(name: string, methods: seq<Method>, interface: string, rest: string)
    requires FitsItem(ResourceItem(name, methods)) && NoSemicolon(rest)
    ensures var s := ItemOut(ResourceItem(name, methods), rest);
            && Begins(s)
            && DeclarationText(s, InterfaceScope, interface, interface) ==
               Reads([ResourceEntry(name)] + MethodEntries(methods, name), rest)
  {
    var braced := "{" + (" " + MethodsOut(methods, rest));
    ResourceReads(name, methods, interface, rest);
    NoColonBehind(name, braced);
    LineReads("resource", name + (" " + braced), interface);
  }

  lemma ResourceReads(name: string, methods: seq<Method>, interface: string, rest: string)
    requires FitsItem(ResourceItem(name, methods)) && NoSemicolon(rest)
    ensures ResourceText(" " + (name + (" " + ("{" + (" " + MethodsOut(methods, rest))))), interface) ==
            Reads([ResourceEntry(name)] + MethodEntries(methods, name), rest)
  {
    var body := " " + MethodsOut(methods, rest);
    BraceComesBack(name, body);
    MethodsRead(methods, name, interface, rest);
    ResourceBodyReads(Ident(" " + (name + (" " + ("{" + body)))).1, body, name, interface,
                      MethodEntries(methods, name), rest);
  }

  lemma ResourceBodyReads(s: string, body: string, name: string, interface: string, items: seq<Entry>, rest: string)
    requires AfterTrivia(s) == "{" + body && Expect("{" + body, '{') == Some(body) && Expect(s, ';').None?
    requires ScopeItems(body, ResourceScope, name, interface) == Reads(items, rest) && NoSemicolon(rest)
    ensures ResourceBodyText(s, name, interface) == Reads(items, rest)
  {
    assert items + [] == items;
  }

  lemma ItemReads(item: Item, interface: string, rest: string)
    requires FitsItem(item) && interface != "" && NoSemicolon(rest)
    ensures var s := ItemOut(item, rest);
            && Begins(s)
            && DeclarationText(s, InterfaceScope, interface, interface) == Reads(ItemEntries(item, interface), rest)
  {
    match item
    case TypeItem(keyword, name, members) => TypeItemReads(keyword, name, members, interface, rest);
    case AliasItem(name, target) => AliasItemReads(name, target, interface, rest);
    case FuncItem(name, signature) => FuncItemReads(name, signature, interface, rest);
    case UseItem(text) => UseItemReads(text, interface, rest);
    case ResourceItem(name, methods) => ResourceItemReads(name, methods, interface, rest);
  }

  // ---- Interfaces and files ----

  lemma {:induction false} ItemsRead(items: seq<Item>, interface: string, rest: string)
    requires interface != "" && forall i :: 0 <= i < |items| ==> FitsItem(items[i])
    ensures ScopeItems(" " + ItemsOut(items, rest), InterfaceScope, interface, interface) ==
            Reads(ItemsEntries(items, interface), rest)
    ensures NoSemicolon(" " + ItemsOut(items, rest))
  {
    if items == [] {
      RoundCloses(rest, InterfaceScope, interface, interface);
      NoSemicolonHere("}" + rest);
    } else {
      var more := " " + ItemsOut(items[1..], rest);
      ItemsRead(items[1..], interface, rest);
      ItemReads(items[0], interface, more);
      RoundReads(ItemOut(items[0], more), InterfaceScope, interface, interface, ItemEntries(items[0], interface), more);
      NoSemicolonHere(ItemOut(items[0], more));
    }
  }

  lemma NoSemicolonHere(s: string)
    requires s != [] && !IsBlank(s[0]) && s[0] != ';'
    ensures NoSemicolon(" " + s)
  {
    assert (" " + s)[1..] == s;
    assert DropWhile(IsBlank, s) == s;
    assert DropWhile(IsBlank, " " + s) == s;
  }

  lemma InterfaceReads(interface: Interface, rest: string)
    requires FitsInterface(interface)
    ensures var s := HeadOut("interface", interface.name, " " + ItemsOut(interface.items, rest));
            && Begins(s)
            && DeclarationText(s, TopScope, "", "") ==
               Reads([InterfaceEntry(interface.name)] + ItemsEntries(interface.items, interface.name), rest)
  {
    var name, body := interface.name, " " + ItemsOut(interface.items, rest);
    var s := HeadOut("interface", name, body);
    KeywordsAreNames();
    LineComesBack("interface", name + (" " + ("{" + body)));
    BraceComesBack(name, body);
    NoColonBehind(name, "{" + body);
    NoFunctionHere(s, TopScope, "");
    FirstWord("interface", " " + (name + (" " + ("{" + body))));
    KeywordLeads(s, "interface", "");
    ItemsRead(interface.items, name, rest);
    KeywordDeclares(s, TopScope, "", "");
  }

  lemma {:induction false} InterfacesRead(interfaces: seq<Interface>)
    requires forall i :: 0 <= i < |interfaces| ==> FitsInterface(interfaces[i])
    ensures ScopeItems(InterfacesOut(interfaces), TopScope, "", "") == Reads(InterfaceEntries(interfaces), "")
  {
    if interfaces != [] {
      var first, more := interfaces[0], InterfacesOut(interfaces[1..]);
      InterfaceReads(first, more);
      RoundReads(HeadOut("interface", first.name, " " + ItemsOut(first.items, more)), TopScope, "", "",
                 [InterfaceEntry(first.name)] + ItemsEntries(first.items, first.name), more);
      InterfacesRead(interfaces[1..]);
    }
  }

  /** Whatever file is written out, reading it declares exactly what it holds, in order. */
  lemma FileReads(file: File)
    requires FitsFile(file)
    ensures ScopeItems(FileOut(file), TopScope, "", "") == Reads(FileEntries(file), "")
  {
    var more := InterfacesOut(file.interfaces);
    var raw := file.package + (";" + more);
    var s := "package" + (" " + raw);
    KeywordsAreNames();
    LineComesBack("package", raw);
    BlankGoes(raw);
    assert raw[0] == file.package[0];
    FirstWord("package", " " + raw);
    KeywordLeads(s, "package", "");
    RawComesBack(file.package, MAX_PACKAGE - 1, more);
    PackageReads(s, file.package, more);
    InterfacesRead(file.interfaces);
  }

  lemma PackageReads(s: string, text: string, rest: string)
    requires Begins(s) && KeywordText(s, "") == PackageText(AfterKeyword(s, "package").1)
    requires RawText(AfterKeyword(s, "package").1, MAX_PACKAGE - 1) == Some((text, rest))
    requires text != "" && Trim(text) == text
    ensures ScopeItems(s, TopScope, "", "") == Joined([PackageEntry(text)], ScopeItems(rest, TopScope, "", ""))
  {
    KeywordDeclares(s, TopScope, "", "");
    RoundReads(s, TopScope, "", "", [PackageEntry(text)], rest);
  }

  // ---- Functions that go wrong ----

  lemma MarkIsNoKeyword(s: string, k: string)
    requires StartsWithMark(s) && IsName(k)
    ensures AfterKeyword(s, k) == (false, s)
  {
    MarkStays(s);
    assert k[0] != s[0];
    assert |k| <= |s| ==> s[..|k|][0] == s[0];
  }

  lemma MarkPasses(s: string, interface: string)
    requires StartsWithMark(s)
    ensures FunctionText(s, InterfaceScope, interface) == Closes(s)
    ensures KeywordOrPassText(s, interface) == Reads([], s[1..])
  {
    MarkStays(s);
    KeywordsAreNames();
    forall k | IsName(k) ensures AfterKeyword(s, k) == (false, s) {
      MarkIsNoKeyword(s, k);
    }
    assert TypeWordsAre(s, "");
    TypeKeywordComes(s, interface);
  }

  lemma MarkIsSkipped(s: string, interface: string)
    requires StartsWithMark(s) && s[0] != '}'
    ensures ScopeItems(s, InterfaceScope, interface, interface) ==
            ScopeItems(s[1..], InterfaceScope, interface, interface)
  {
    MarkStays(s);
    MarkPasses(s, interface);
    assert RoundText(s, InterfaceScope, interface, interface) == Reads([], s[1..]);
    NothingJoined(ScopeItems(s[1..], InterfaceScope, interface, interface));
  }

  lemma NothingJoined(v: Verdict)
    ensures Joined([], v) == v
  {
    if v.Reads? {
      assert [] + v.items == v.items;
    }
  }

  /** A function whose parameter has no type. */
  function BrokenOut(name: string, param: string, rest: string): string {
    name + (":" + (" " + ("func" + ("(" + (param + (")" + (";" + rest)))))))
  }

  /** Such a function is dropped: the interface goes on behind it, with success. */
  lemma BrokenFunctionIsDropped(name: string, param: string, interface: string, rest: string)
    requires IsName(name) && IsName(param)
    ensures ScopeItems(BrokenOut(name, param, rest), InterfaceScope, interface, interface) ==
            ScopeItems(rest, InterfaceScope, interface, interface)
  {
    var s, semicolon := BrokenOut(name, param, rest), ";" + rest;
    BrokenDeclaresNothing(name, param, interface, rest);
    RoundReads(s, InterfaceScope, interface, interface, [], semicolon);
    NothingJoined(ScopeItems(semicolon, InterfaceScope, interface, interface));
    MarkIsSkipped(semicolon, interface);
    assert semicolon[1..] == rest;
  }

  lemma BrokenDeclaresNothing(name: string, param: string, interface: string, rest: string)
    requires IsName(name) && IsName(param)
    ensures Begins(BrokenOut(name, param, rest))
    ensures DeclarationText(BrokenOut(name, param, rest), InterfaceScope, interface, interface) == Reads([], ";" + rest)
  {
    var end := ")" + (";" + rest);
    BrokenStops(param, end);
    FuncHeadComesBack(name, false, "(" + (param + end), false);
    assert FunctionText(BrokenOut(name, param, rest), InterfaceScope, interface) == Closes(end);
    MarkStays(end);
    MarkPasses(end, interface);
    assert end[1..] == ";" + rest;
  }

  lemma BrokenStops(param: string, end: string)
    requires IsName(param) && StartsWithMark(end) && end[0] == ')'
    ensures EndsWord("(" + (param + end))
    ensures SignatureText("(" + (param + end), "").None? && SignatureStop("(" + (param + end), "") == end
  {
    var s := param + end;
    MarkStays("(" + s);
    assert ("(" + s)[1..] == s;
    MarkStays(end);
    NameStays(param, end);
    IdentReadsName(param, end);
    assert MemberText(s, Typed).None? && MemberStop(s) == end;
  }
}
