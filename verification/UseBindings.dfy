/** Resolution of `use` bindings to the declarations they finally name. */
module UseBindings {
  import opened Wrappers

  /** A name in scope: package, interface and local name. */
  datatype Key = Key(package: string, interface: string, name: string)

  /** `use target as key`. */
  datatype Binding = Binding(key: Key, target: Key)

  /** Symbols of declared types, by scoped name; a symbol is never empty. */
  type Decls = m: map<Key, string> | forall k | k in m :: m[k] != ""

  // ---- What a binding means ----

  ghost predicate UniqueKeys(bs: seq<Binding>) {
    forall i, j :: 0 <= i < j < |bs| ==> bs[i].key != bs[j].key
  }

  /** The bindings as a map; their order plays no part in it. */
  function Links(bs: seq<Binding>): map<Key, Key> {
    if bs == [] then map[] else Links(bs[..|bs| - 1])[bs[|bs| - 1].key := bs[|bs| - 1].target]
  }

  lemma {:induction false} LinkOf(bs: seq<Binding>, i: nat)
    requires UniqueKeys(bs) && i < |bs|
    ensures bs[i].key in Links(bs) && Links(bs)[bs[i].key] == bs[i].target
  {
    if i < |bs| - 1 {
      LinkOf(bs[..|bs| - 1], i);
    }
  }

  lemma {:induction false} LinkSource(bs: seq<Binding>, k: Key) returns (i: nat)
    requires k in Links(bs)
    ensures i < |bs| && bs[i].key == k
  {
    if bs[|bs| - 1].key == k {
      i := |bs| - 1;
    } else {
      i := LinkSource(bs[..|bs| - 1], k);
    }
  }

  /** The symbol at the end of the chain from `k`, if it lies at most `hops` bindings away. */
  function Chase(decls: Decls, links: map<Key, Key>, k: Key, hops: nat): (r: Option<string>)
    ensures r.Some? ==> r.value != ""
    decreases hops
  {
    if k in decls then Some(decls[k])
    else if hops == 0 || k !in links then None
    else Chase(decls, links, links[k], hops - 1)
  }

  /** The chain from `k` ends in a declaration with this symbol. */
  ghost predicate EndsIn(decls: Decls, links: map<Key, Key>, k: Key, symbol: string) {
    exists hops: nat :: Chase(decls, links, k, hops) == Some(symbol)
  }

  ghost predicate Ends(decls: Decls, links: map<Key, Key>, k: Key) {
    exists hops: nat :: Chase(decls, links, k, hops).Some?
  }

  lemma {:induction false} ChaseMonotone(decls: Decls, links: map<Key, Key>, k: Key, h1: nat, h2: nat)
    requires h1 <= h2 && Chase(decls, links, k, h1).Some?
    ensures Chase(decls, links, k, h2) == Chase(decls, links, k, h1)
    decreases h1
  {
    if k !in decls {
      ChaseMonotone(decls, links, links[k], h1 - 1, h2 - 1);
    }
  }

  /** A chain ends in one declaration only. */
  lemma EndUnique(decls: Decls, links: map<Key, Key>, k: Key, s1: string, s2: string)
    requires EndsIn(decls, links, k, s1) && EndsIn(decls, links, k, s2)
    ensures s1 == s2
  {
    var h1: nat :| Chase(decls, links, k, h1) == Some(s1);
    var h2: nat :| Chase(decls, links, k, h2) == Some(s2);
    ChaseMonotone(decls, links, k, h1, if h1 > h2 then h1 else h2);
    ChaseMonotone(decls, links, k, h2, if h1 > h2 then h1 else h2);
  }

  lemma EndStep(decls: Decls, links: map<Key, Key>, k: Key, symbol: string)
    requires k !in decls && k in links && EndsIn(decls, links, links[k], symbol)
    ensures EndsIn(decls, links, k, symbol)
  {
    var hops: nat :| Chase(decls, links, links[k], hops) == Some(symbol);
    assert Chase(decls, links, k, hops + 1) == Some(symbol);
  }

  lemma EndsBack(decls: Decls, links: map<Key, Key>, k: Key)
    requires k in links && Ends(decls, links, links[k])
    ensures Ends(decls, links, k)
  {
    var hops: nat :| Chase(decls, links, links[k], hops).Some?;
    assert Chase(decls, links, k, hops + 1).Some?;
  }

  lemma NextNeverEnds(decls: Decls, links: map<Key, Key>, k: Key)
    requires k in links && !Ends(decls, links, k)
    ensures links[k] !in decls && !Ends(decls, links, links[k])
  {
    assert Chase(decls, links, links[k], 0).Some? ==> Ends(decls, links, links[k]);
    if Ends(decls, links, links[k]) {
      EndsBack(decls, links, k);
    }
  }

  // ---- The fixpoint ----

  class Registry {
    const decls: Decls
    const bindings: seq<Binding>
    /** Target symbols found so far, empty where there is none yet. */
    var symbols: seq<string>

    constructor (decls: Decls, bindings: seq<Binding>)
      ensures this.decls == decls && this.bindings == bindings
      ensures symbols == seq(|bindings|, _ => "")
    {
      this.decls := decls;
      this.bindings := bindings;
      symbols := seq(|bindings|, _ => "");
    }

    /** Every symbol found so far is right. */
    ghost predicate Sound()
      reads this
    {
      && |symbols| == |bindings| && UniqueKeys(bindings)
      && forall i :: 0 <= i < |bindings| && symbols[i] != "" ==>
           EndsIn(decls, Links(bindings), bindings[i].target, symbols[i])
    }

    /** Binding `i` could be resolved from what is known. */
    predicate Reachable(i: nat)
      requires i < |bindings| == |symbols|
      reads this
    {
      bindings[i].target in decls ||
      exists j | 0 <= j < |bindings| :: bindings[j].key == bindings[i].target && symbols[j] != ""
    }

    method LookupResolved(k: Key) returns (symbol: string)
      requires Sound()
      ensures symbol == "" ==> forall j :: 0 <= j < |bindings| && bindings[j].key == k ==> symbols[j] == ""
      ensures symbol != "" ==> exists j :: 0 <= j < |bindings| && bindings[j].key == k && symbols[j] == symbol
    {
      for j := 0 to |bindings|
        invariant forall i :: 0 <= i < j && bindings[i].key == k ==> symbols[i] == ""
      {
        if bindings[j].key == k && symbols[j] != "" {
          return symbols[j];
        }
      }
      return "";
    }

    method Lookup(i: nat) returns (symbol: string)
      requires Sound() && i < |bindings|
      ensures symbol == "" <==> !Reachable(i)
      ensures symbol != "" ==> EndsIn(decls, Links(bindings), bindings[i].target, symbol)
    {
      var k := bindings[i].target;
      if k in decls {
        assert Chase(decls, Links(bindings), k, 0) == Some(decls[k]);
        return decls[k];
      }
      symbol := LookupResolved(k);
      if symbol != "" {
        var j :| 0 <= j < |bindings| && bindings[j].key == k && symbols[j] == symbol;
        LinkOf(bindings, j);
        EndStep(decls, Links(bindings), k, symbol);
      }
    }

    /** One pass over the bindings, in order. */
    method Pass() returns (unresolved: nat, progress: bool)
      requires Sound()
      modifies `symbols
      ensures Sound()
      ensures forall i :: 0 <= i < |bindings| && old(symbols)[i] != "" ==> symbols[i] == old(symbols)[i]
      ensures unresolved == 0 ==> forall i :: 0 <= i < |bindings| ==> symbols[i] != ""
      ensures progress ==> Resolved(symbols) > Resolved(old(symbols))
      ensures !progress ==> symbols == old(symbols)
                            && forall i :: 0 <= i < |bindings| && symbols[i] == "" ==> !Reachable(i)
      ensures unresolved > 0 && !progress ==> exists i :: 0 <= i < |bindings| && symbols[i] == ""
    {
      unresolved, progress := 0, false;
      for i := 0 to |bindings|
        invariant Sound()
        invariant forall k :: 0 <= k < |bindings| && old(symbols)[k] != "" ==> symbols[k] == old(symbols)[k]
        invariant unresolved == 0 ==> forall k :: 0 <= k < i ==> symbols[k] != ""
        invariant progress ==> Resolved(symbols) > Resolved(old(symbols))
        invariant !progress ==> symbols == old(symbols)
                                && forall k :: 0 <= k < i && symbols[k] == "" ==> !Reachable(k)
        invariant unresolved > 0 && !progress ==> exists k :: 0 <= k < i && symbols[k] == ""
      {
        if symbols[i] == "" {
          var symbol := Lookup(i);
          if symbol == "" {
            unresolved := unresolved + 1;
          } else {
            ResolvedGrows(symbols, i, symbol);
            symbols := symbols[i := symbol];
            progress := true;
          }
        }
      }
    }

    /** Gives every binding the symbol its chain ends in, or reports that some chain ends in
        no declaration. The pass bound is never what stops the loop. */
    method Resolve() returns (ok: bool)
      requires UniqueKeys(bindings) && symbols == seq(|bindings|, _ => "")
      modifies `symbols
      ensures ok <==> forall i :: 0 <= i < |bindings| ==> Ends(decls, Links(bindings), bindings[i].target)
      ensures |symbols| == |bindings|
      ensures ok ==> forall i :: 0 <= i < |bindings| ==>
                EndsIn(decls, Links(bindings), bindings[i].target, symbols[i])
    {
      var pass, stuck := 0, false;
      while pass <= |bindings| && !stuck
        invariant Sound() && pass <= |bindings| + 1
        invariant !stuck ==> Resolved(symbols) >= pass
        invariant stuck ==> (exists i :: 0 <= i < |bindings| && symbols[i] == "")
                            && forall i :: 0 <= i < |bindings| && symbols[i] == "" ==> !Reachable(i)
        decreases |bindings| + 1 - pass, if stuck then 0 else 1
      {
        var unresolved, progress := Pass();
        if unresolved == 0 {
          AllEnd();
          return true;
        }
        if !progress {
          stuck := true;
        } else {
          pass := pass + 1;
        }
      }
      ResolvedBound(symbols);
      assert stuck;
      var i :| 0 <= i < |bindings| && symbols[i] == "";
      assert !Ends(decls, Links(bindings), bindings[i].target) by {
        if hops: nat :| Chase(decls, Links(bindings), bindings[i].target, hops).Some? {
          NeverEnds(i, hops);
        }
      }
      return false;
    }

    lemma AllEnd()
      requires Sound() && forall i :: 0 <= i < |bindings| ==> symbols[i] != ""
      ensures forall i :: 0 <= i < |bindings| ==> Ends(decls, Links(bindings), bindings[i].target)
    {
      forall i | 0 <= i < |bindings| ensures Ends(decls, Links(bindings), bindings[i].target) {
        var hops: nat :| Chase(decls, Links(bindings), bindings[i].target, hops) == Some(symbols[i]);
      }
    }

    /** When nothing unresolved is reachable, the chains of unresolved bindings never end. */
    lemma {:induction false} NeverEnds(i: nat, hops: nat)
      requires Sound() && i < |bindings| && symbols[i] == ""
      requires forall k :: 0 <= k < |bindings| && symbols[k] == "" ==> !Reachable(k)
      ensures Chase(decls, Links(bindings), bindings[i].target, hops).None?
      decreases hops
    {
      var k := bindings[i].target;
      assert !Reachable(i);
      if k in Links(bindings) && hops > 0 {
        var j := LinkSource(bindings, k);
        LinkOf(bindings, j);
        NeverEnds(j, hops - 1);
      }
    }
  }

  /** How many symbols are known. */
  function Resolved(symbols: seq<string>): nat {
    if symbols == [] then 0 else (if symbols[0] != "" then 1 else 0) + Resolved(symbols[1..])
  }

  lemma {:induction false} ResolvedGrows(symbols: seq<string>, i: nat, symbol: string)
    requires i < |symbols| && symbols[i] == "" && symbol != ""
    ensures Resolved(symbols[i := symbol]) == Resolved(symbols) + 1
    decreases i
  {
    if i > 0 {
      ResolvedGrows(symbols[1..], i - 1, symbol);
      assert symbols[i := symbol][1..] == symbols[1..][i - 1 := symbol];
    } else {
      assert symbols[i := symbol][1..] == symbols[1..];
    }
  }

  lemma {:induction false} ResolvedBound(symbols: seq<string>)
    ensures Resolved(symbols) <= |symbols|
  {
    if symbols != [] {
      ResolvedBound(symbols[1..]);
    }
  }

  // ---- Which chains end ----

  /** Following a chain to its end either avoids `k` or starts again from `k`. */
  lemma {:induction false} AvoidOrRestart(decls: Decls, links: map<Key, Key>, k: Key, t: Key, hops: nat, symbol: string)
    requires Chase(decls, links, t, hops) == Some(symbol)
    ensures Chase(decls, links - {k}, t, hops) == Some(symbol)
            || exists h: nat :: h <= hops && Chase(decls, links, k, h) == Some(symbol)
    decreases hops
  {
    if t !in decls && t != k {
      AvoidOrRestart(decls, links, k, links[t], hops - 1, symbol);
    }
  }

  lemma {:induction false} ChaseMoreLinks(decls: Decls, links: map<Key, Key>, k: Key, t: Key, hops: nat)
    requires Chase(decls, links - {k}, t, hops).Some?
    ensures Chase(decls, links, t, hops) == Chase(decls, links - {k}, t, hops)
    decreases hops
  {
    if t !in decls {
      ChaseMoreLinks(decls, links, k, links[t], hops - 1);
    }
  }

  /** A chain that ends does so without using any binding twice: a chain that has not ended
      after as many hops as there are bindings runs in a circle or into nothing. */
  lemma {:induction false} EndsWithinCount(decls: Decls, links: map<Key, Key>, k: Key, hops: nat)
    requires Chase(decls, links, k, hops).Some?
    ensures Chase(decls, links, k, |links|) == Chase(decls, links, k, hops)
    decreases |links|, hops
  {
    if k !in decls {
      var symbol := Chase(decls, links, k, hops).value;
      AvoidOrRestart(decls, links, k, links[k], hops - 1, symbol);
      if Chase(decls, links - {k}, links[k], hops - 1) == Some(symbol) {
        RemoveOne(links, k);
        EndsWithinCount(decls, links - {k}, links[k], hops - 1);
        ChaseMoreLinks(decls, links, k, links[k], |links| - 1);
      } else {
        var h: nat :| h <= hops - 1 && Chase(decls, links, k, h) == Some(symbol);
        EndsWithinCount(decls, links, k, h);
      }
    }
  }

  lemma RemoveOne(links: map<Key, Key>, k: Key)
    requires k in links
    ensures |links - {k}| == |links| - 1
  {
    assert links.Keys == (links - {k}).Keys + {k};
    assert |(links - {k}).Keys| == |links - {k}|;
  }

  /** A chain of bindings that misses every declaration. */
  predicate IsChain(decls: Decls, links: map<Key, Key>, ks: seq<Key>) {
    && ks != []
    && (forall i :: 0 <= i < |ks| ==> ks[i] !in decls)
    && (forall i :: 0 <= i < |ks| - 1 ==> ks[i] in links && links[ks[i]] == ks[i + 1])
  }

  /** The chain finally names nothing, or comes back to a name it has used. */
  predicate IsDeadEnd(decls: Decls, links: map<Key, Key>, ks: seq<Key>) {
    IsChain(decls, links, ks) && (ks[|ks| - 1] !in links || ks[|ks| - 1] in ks[..|ks| - 1])
  }

  lemma {:induction false} DeadEndNeverEnds(decls: Decls, links: map<Key, Key>, ks: seq<Key>, i: nat, hops: nat)
    requires IsDeadEnd(decls, links, ks) && i < |ks|
    ensures Chase(decls, links, ks[i], hops).None?
    decreases hops
  {
    if hops > 0 && ks[i] in links {
      var at := i;
      if i == |ks| - 1 {
        at :| 0 <= at < |ks| - 1 && ks[..|ks| - 1][at] == ks[i];
      }
      DeadEndNeverEnds(decls, links, ks, at + 1, hops - 1);
    }
  }

  lemma ChainExtends(decls: Decls, links: map<Key, Key>, ks: seq<Key>, next: Key)
    requires IsChain(decls, links, ks) && ks[|ks| - 1] in links && links[ks[|ks| - 1]] == next && next !in decls
    ensures IsChain(decls, links, ks + [next])
  {
  }

  /** Extends a chain that never ends until it is seen to be dead. */
  lemma {:induction false} FindDeadEnd(decls: Decls, links: map<Key, Key>, ks: seq<Key>, used: set<Key>)
    returns (dead: seq<Key>)
    requires IsChain(decls, links, ks) && !Ends(decls, links, ks[|ks| - 1])
    requires (forall k :: k in used <==> k in ks[..|ks| - 1]) && ks[|ks| - 1] !in used
    ensures IsDeadEnd(decls, links, dead) && dead[0] == ks[0]
    decreases links.Keys - used
  {
    var last := ks[|ks| - 1];
    if last !in links {
      dead := ks;
    } else {
      var next := links[last];
      var longer := ks + [next];
      NextNeverEnds(decls, links, last);
      ChainExtends(decls, links, ks, next);
      assert longer[..|longer| - 1] == ks == ks[..|ks| - 1] + [last];
      if next in ks {
        dead := longer;
      } else {
        dead := FindDeadEnd(decls, links, longer, used + {last});
      }
    }
  }

  /** A name resolves unless its chain dangles or runs in a circle. */
  lemma EndsUnlessDead(decls: Decls, links: map<Key, Key>, k: Key)
    ensures !Ends(decls, links, k) <==> exists ks :: IsDeadEnd(decls, links, ks) && ks[0] == k
  {
    if !Ends(decls, links, k) {
      assert Chase(decls, links, k, 0).None?;
      var dead := FindDeadEnd(decls, links, [k], {});
    }
    if ks :| IsDeadEnd(decls, links, ks) && ks[0] == k {
      forall hops: nat ensures Chase(decls, links, k, hops).None? {
        DeadEndNeverEnds(decls, links, ks, 0, hops);
      }
    }
  }

  /** Declaration order of the bindings does not matter. */
  lemma LinksOrderFree(bs1: seq<Binding>, bs2: seq<Binding>)
    requires UniqueKeys(bs1) && UniqueKeys(bs2)
    requires forall b :: b in bs1 <==> b in bs2
    ensures Links(bs1) == Links(bs2)
  {
    forall k | k in Links(bs1) ensures k in Links(bs2) && Links(bs2)[k] == Links(bs1)[k] {
      SameLink(bs1, bs2, k);
    }
    forall k | k in Links(bs2) ensures k in Links(bs1) {
      SameLink(bs2, bs1, k);
    }
  }

  lemma SameLink(bs1: seq<Binding>, bs2: seq<Binding>, k: Key)
    requires UniqueKeys(bs1) && UniqueKeys(bs2) && k in Links(bs1)
    requires forall b :: b in bs1 ==> b in bs2
    ensures k in Links(bs2) && Links(bs2)[k] == Links(bs1)[k]
  {
    var i := LinkSource(bs1, k);
    LinkOf(bs1, i);
    assert bs1[i] in bs2;
    var j :| 0 <= j < |bs2| && bs2[j] == bs1[i];
    LinkOf(bs2, j);
  }
}
