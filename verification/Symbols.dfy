/** Scoped symbol names: `package/interface::name`, built and taken apart again. */
module Symbols {
  import opened Wrappers

  datatype Scoped = Scoped(package: string, interface: string, local: string)

  /** Without an interface the package is dropped; without a name there is no symbol. */
  function ScopedSymbol(package: string, interface: string, name: string): string {
    if name == "" then ""
    else if package != "" && interface != "" then package + "/" + interface + "::" + name
    else if interface != "" then interface + "::" + name
    else name
  }

  /** The index of the first double colon. */
  function Separator(s: string): (r: Option<nat>)
    ensures r.Some? ==> r.value + 2 <= |s|
  {
    if |s| < 2 then None
    else if s[0] == ':' && s[1] == ':' then Some(0)
    else
      match Separator(s[1..])
      case None => None
      case Some(i) => Some(i + 1)
  }

  /** The index of the last slash before `n`. */
  function LastSlash(s: string, n: nat): (r: Option<nat>)
    requires n <= |s|
    ensures r.Some? ==> r.value < n
  {
    if n == 0 then None else if s[n - 1] == '/' then Some(n - 1) else LastSlash(s, n - 1)
  }

  function Split(s: string): Scoped {
    match Separator(s)
    case None => Scoped("", "", s)
    case Some(sep) =>
      match LastSlash(s, sep)
      case None => Scoped("", s[..sep], s[sep + 2..])
      case Some(slash) => Scoped(s[..slash], s[slash + 1..sep], s[sep + 2..])
  }

  method SplitSymbolName(s: string) returns (r: Scoped)
    ensures r == Split(s)
  {
    var sep := Separator(s);
    if sep.None? {
      return Scoped("", "", s);
    }
    var slash: Option<nat> := None;
    for p := 0 to sep.value
      invariant slash == LastSlash(s, p)
    {
      if s[p] == '/' {
        slash := Some(p);
      }
    }
    var start := if slash.Some? then slash.value + 1 else 0;
    return Scoped(if slash.Some? then s[..slash.value] else "", s[start..sep.value], s[sep.value + 2..]);
  }

  predicate DoubleColonAt(s: string, i: nat) {
    i + 1 < |s| && s[i] == ':' && s[i + 1] == ':'
  }

  lemma {:induction false} SeparatorIs(s: string, i: nat)
    ensures Separator(s) == Some(i) <==> DoubleColonAt(s, i) && forall j :: 0 <= j < i ==> !DoubleColonAt(s, j)
  {
    if |s| >= 2 && !DoubleColonAt(s, 0) {
      if i > 0 {
        SeparatorIs(s[1..], i - 1);
        assert DoubleColonAt(s, i) == DoubleColonAt(s[1..], i - 1);
        if Separator(s) == Some(i) {
          forall j | 0 <= j < i ensures !DoubleColonAt(s, j) {
            assert j > 0 ==> DoubleColonAt(s, j) == DoubleColonAt(s[1..], j - 1);
          }
        } else if DoubleColonAt(s, i) && forall j :: 0 <= j < i ==> !DoubleColonAt(s, j) {
          forall j | 0 <= j < i - 1 ensures !DoubleColonAt(s[1..], j) {
            assert DoubleColonAt(s[1..], j) == DoubleColonAt(s, j + 1);
          }
        }
      }
    }
  }

  lemma {:induction false} LastSlashIs(s: string, n: nat, i: nat)
    requires n <= |s|
    ensures LastSlash(s, n) == Some(i) <==> i < n && s[i] == '/' && forall j :: i < j < n ==> s[j] != '/'
  {
    if n > 0 && s[n - 1] != '/' {
      LastSlashIs(s, n - 1, i);
    }
  }

  /** What stands in front of the double colon. */
  function Scope(package: string, interface: string): string {
    if package == "" then interface else package + "/" + interface
  }

  /** The names a symbol keeps apart. */
  predicate Recoverable(package: string, interface: string, name: string) {
    if name == "" then package == "" && interface == ""
    else if interface == "" then package == "" && Separator(name).None?
    else '/' !in interface && Separator(Scope(package, interface) + ":").None?
  }

  /** Splitting a symbol gives back what it was built from exactly for recoverable names. */
  lemma SplitInvertsBuild(package: string, interface: string, name: string)
    ensures Split(ScopedSymbol(package, interface, name)) == Scoped(package, interface, name) <==>
            Recoverable(package, interface, name)
  {
    if name != "" && interface != "" {
      var scope := Scope(package, interface);
      assert ScopedSymbol(package, interface, name) == scope + "::" + name;
      ScopedSplit(package, interface, name, scope, scope + "::" + name);
    }
  }

  lemma ScopedSplit(package: string, interface: string, name: string, scope: string, s: string)
    requires name != "" && interface != "" && scope == Scope(package, interface) && s == scope + "::" + name
    ensures Split(s) == Scoped(package, interface, name) <==> Recoverable(package, interface, name)
  {
    var n := |scope|;
    SeparatorIs(s, n);
    SeparatorInScope(scope, s);
    if Separator(s) == Some(n) {
      SlashInScope(package, interface, scope, s);
    } else if Separator(s).Some? {
      assert |Split(s).local| == |s| - Separator(s).value - 2;
    }
  }

  /** The first double colon is the intended one unless the scope has one, or ends in a colon. */
  lemma SeparatorInScope(scope: string, s: string)
    requires |s| >= |scope| + 2 && s[..|scope| + 2] == scope + "::"
    ensures Separator(s) == Some(|scope|) <==> Separator(scope + ":").None?
  {
    var t, n := scope + ":", |scope|;
    assert forall i :: 0 <= i < n + 2 ==> s[i] == (scope + "::")[i];
    SeparatorIs(s, n);
    forall j | 0 <= j < n ensures DoubleColonAt(s, j) == DoubleColonAt(t, j) {
    }
    if Separator(t).Some? {
      SeparatorIs(t, Separator(t).value);
    } else if j: nat :| j < n && DoubleColonAt(t, j) {
      FirstDoubleColon(t, j);
    }
  }

  lemma {:induction false} FirstDoubleColon(s: string, j: nat)
    requires DoubleColonAt(s, j)
    ensures Separator(s).Some?
  {
    if j > 0 && !DoubleColonAt(s, 0) {
      assert DoubleColonAt(s[1..], j - 1);
      FirstDoubleColon(s[1..], j - 1);
    }
  }

  lemma SlashInScope(package: string, interface: string, scope: string, s: string)
    requires interface != "" && scope == Scope(package, interface) && |scope| <= |s| && s[..|scope|] == scope
    requires Separator(s) == Some(|scope|)
    ensures Split(s).package == package && Split(s).interface == interface <==> '/' !in interface
  {
    InterfaceAt(package, interface, scope, s);
    if '/' in interface {
      SlashInInterface(interface, s, |scope|);
    } else {
      NoSlashInInterface(package, interface, s, |scope|);
    }
  }

  lemma InterfaceAt(package: string, interface: string, scope: string, s: string)
    requires interface != "" && scope == Scope(package, interface) && |scope| <= |s| && s[..|scope|] == scope
    ensures var n := |scope|;
            && |interface| <= n && s[n - |interface|..n] == interface
            && if package == "" then |interface| == n
               else |interface| + |package| + 1 == n && s[..|package|] == package && s[|package|] == '/'
  {
    var n := |scope|;
    assert s[n - |interface|..n] == s[..n][n - |interface|..] == scope[n - |interface|..];
    if package != "" {
      assert s[..|package|] == s[..n][..|package|] && s[|package|] == s[..n][|package|];
    }
  }

  lemma SlashInInterface(interface: string, s: string, n: nat)
    requires '/' in interface && |interface| <= n <= |s| && s[n - |interface|..n] == interface
    requires Separator(s) == Some(n)
    ensures Split(s).interface != interface
  {
    var k :| 0 <= k < |interface| && interface[k] == '/';
    assert s[n - |interface| + k] == s[n - |interface|..n][k];
    LaterSlash(s, n, n - |interface| + k);
  }

  lemma NoSlashInInterface(package: string, interface: string, s: string, n: nat)
    requires '/' !in interface && |interface| <= n <= |s| && s[n - |interface|..n] == interface
    requires Separator(s) == Some(n)
    requires if package == "" then |interface| == n
             else |interface| + |package| + 1 == n && s[..|package|] == package && s[|package|] == '/'
    ensures Split(s).package == package && Split(s).interface == interface
  {
    var at := n - |interface|;
    forall j | at <= j < n ensures s[j] != '/' {
      assert s[j] == s[at..n][j - at];
    }
    if package == "" {
      NoSlash(s, n);
    } else {
      LastSlashIs(s, n, at - 1);
    }
  }

  lemma {:induction false} LaterSlash(s: string, n: nat, i: nat)
    requires i < n <= |s| && s[i] == '/'
    ensures LastSlash(s, n).Some? && LastSlash(s, n).value >= i
  {
    if s[n - 1] != '/' {
      LaterSlash(s, n - 1, i);
    }
  }

  lemma {:induction false} NoSlash(s: string, n: nat)
    requires n <= |s| && forall j :: 0 <= j < n ==> s[j] != '/'
    ensures LastSlash(s, n).None?
  {
    if n > 0 {
      NoSlash(s, n - 1);
    }
  }

  /** Recoverable names have symbols of their own. */
  lemma SymbolsDiffer(a: Scoped, b: Scoped)
    requires Recoverable(a.package, a.interface, a.local) && Recoverable(b.package, b.interface, b.local)
    requires ScopedSymbol(a.package, a.interface, a.local) == ScopedSymbol(b.package, b.interface, b.local)
    ensures a == b
  {
    SplitInvertsBuild(a.package, a.interface, a.local);
    SplitInvertsBuild(b.package, b.interface, b.local);
  }
}
