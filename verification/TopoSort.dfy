/** Ordering of generated struct definitions: Kahn's algorithm, lowest ready index first. */
module TopoSort {
  import opened Wrappers
  import opened Sequences

  /** Type `i` is called `names[i]` and holds, by value, the types named in `deps[i]`. */
  datatype Graph = Graph(names: seq<string>, deps: seq<seq<string>>)
  {
    /** Names are unique, and the dependency collector lists each dependency once. */
    ghost predicate Valid() {
      && |names| == |deps|
      && Distinct(names)
      && forall i :: 0 <= i < |deps| ==> Distinct(deps[i])
    }

    predicate Edge(i: nat, j: nat) {
      i < |deps| && j < |names| && names[j] in deps[i]
    }

    /** Every dependency of `i` is among `done`. */
    predicate Ready(done: seq<nat>, i: nat) {
      i !in done && forall j | 0 <= j < |names| :: Edge(i, j) ==> j in done
    }
  }

  /** The lowest ready index from `i` on. */
  function LowestReady(g: Graph, done: seq<nat>, i: nat): (r: Option<nat>)
    ensures r.Some? ==> i <= r.value < |g.names| && g.Ready(done, r.value)
    ensures forall k: nat :: i <= k < (if r.Some? then r.value else |g.names|) ==> !g.Ready(done, k)
    decreases |g.names| - i
  {
    if i >= |g.names| then None
    else if g.Ready(done, i) then Some(i)
    else LowestReady(g, done, i + 1)
  }

  /** The order the algorithm extends `done` to, or nothing if it gets stuck. */
  function Order(g: Graph, done: seq<nat>): Option<seq<nat>>
    decreases |g.names| - |done|
  {
    if |done| >= |g.names| then Some(done)
    else
      match LowestReady(g, done, 0)
      case None => None
      case Some(i) => Order(g, done + [i])
  }

  // ---- The in-degree bookkeeping ----

  /** Some type called `name` has not been emitted yet. */
  predicate Open(names: seq<string>, done: seq<nat>, name: string) {
    exists j | 0 <= j < |names| :: names[j] == name && j !in done
  }

  function Unmet(names: seq<string>, done: seq<nat>, ds: seq<string>): nat {
    if ds == [] then 0
    else (if Open(names, done, ds[0]) then 1 else 0) + Unmet(names, done, ds[1..])
  }

  lemma {:induction false} UnmetZero(names: seq<string>, done: seq<nat>, ds: seq<string>)
    ensures Unmet(names, done, ds) == 0 <==> forall d | d in ds :: !Open(names, done, d)
  {
    if ds != [] {
      UnmetZero(names, done, ds[1..]);
      assert forall d :: d in ds <==> d == ds[0] || d in ds[1..];
    }
  }

  lemma ReadyIffUnmetZero(g: Graph, done: seq<nat>, i: nat)
    requires g.Valid() && i < |g.names| && i !in done
    ensures g.Ready(done, i) <==> Unmet(g.names, done, g.deps[i]) == 0
  {
    UnmetZero(g.names, done, g.deps[i]);
  }

  /** Emitting `f` meets one dependency of the types that list it, and no other. */
  lemma {:induction false} UnmetAfter(names: seq<string>, done: seq<nat>, f: nat, ds: seq<string>)
    requires Distinct(names) && Distinct(ds) && f < |names| && f !in done
    ensures Unmet(names, done + [f], ds) == Unmet(names, done, ds) - (if names[f] in ds then 1 else 0)
    decreases ds
  {
    if ds != [] {
      UnmetAfter(names, done, f, ds[1..]);
      OpenAfter(names, done, f, ds[0]);
      assert forall d :: d in ds <==> d == ds[0] || d in ds[1..];
    }
  }

  lemma OpenAfter(names: seq<string>, done: seq<nat>, f: nat, name: string)
    requires Distinct(names) && f < |names| && f !in done
    ensures Open(names, done + [f], name) <==> Open(names, done, name) && name != names[f]
    ensures Open(names, done, names[f])
  {
    if Open(names, done, name) && name != names[f] {
      var j :| 0 <= j < |names| && names[j] == name && j !in done;
      assert j !in done + [f];
    }
  }

  method InDegrees(g: Graph) returns (inDeg: array<int>)
    requires g.Valid()
    ensures fresh(inDeg) && inDeg.Length == |g.names|
    ensures forall i :: 0 <= i < |g.names| ==> inDeg[i] == Unmet(g.names, [], g.deps[i])
  {
    inDeg := new int[|g.names|];
    for i := 0 to |g.names|
      invariant forall k :: 0 <= k < i ==> inDeg[k] == Unmet(g.names, [], g.deps[k])
    {
      inDeg[i] := 0;
      for d := 0 to |g.deps[i]|
        invariant forall k :: 0 <= k < i ==> inDeg[k] == Unmet(g.names, [], g.deps[k])
        invariant inDeg[i] + Unmet(g.names, [], g.deps[i][d..]) == Unmet(g.names, [], g.deps[i])
      {
        var named := FindName(g.names, g.deps[i][d]);
        if named {
          inDeg[i] := inDeg[i] + 1;
        }
        assert g.deps[i][d..][1..] == g.deps[i][d + 1..];
      }
    }
  }

  method FindName(names: seq<string>, name: string) returns (found: bool)
    ensures found <==> Open(names, [], name)
  {
    for j := 0 to |names|
      invariant forall k :: 0 <= k < j ==> names[k] != name
    {
      if names[j] == name {
        return true;
      }
    }
    return false;
  }

  /** The emission order as type indices; nothing when types depend on each other in a cycle. */
  method Sort(g: Graph) returns (r: Option<seq<nat>>)
    requires g.Valid()
    ensures r == Order(g, [])
  {
    var n := |g.names|;
    var inDeg := InDegrees(g);
    var done := new bool[n](_ => false);
    var order: seq<nat> := [];
    while |order| < n
      invariant forall i :: 0 <= i < n ==> done[i] == (i in order)
      invariant forall i :: 0 <= i < n && i !in order ==> inDeg[i] == Unmet(g.names, order, g.deps[i])
      invariant |order| <= n && Order(g, []) == Order(g, order)
      decreases n - |order|
    {
      var found := FindReady(g, order, done, inDeg);
      if found < 0 {
        return None;
      }
      done[found] := true;
      Release(g, order, found, done, inDeg);
      order := order + [found];
    }
    return Some(order);
  }

  method FindReady(g: Graph, ghost order: seq<nat>, done: array<bool>, inDeg: array<int>) returns (found: int)
    requires g.Valid() && done.Length == inDeg.Length == |g.names|
    requires forall i :: 0 <= i < |g.names| ==> done[i] == (i in order)
    requires forall i :: 0 <= i < |g.names| && i !in order ==> inDeg[i] == Unmet(g.names, order, g.deps[i])
    ensures LowestReady(g, order, 0) == if found < 0 then None else Some(found)
  {
    for i := 0 to |g.names|
      invariant LowestReady(g, order, 0) == LowestReady(g, order, i)
    {
      if !done[i] {
        ReadyIffUnmetZero(g, order, i);
        if inDeg[i] == 0 {
          return i;
        }
      }
    }
    return -1;
  }

  /** Takes one off the in-degree of every pending type that lists `found`. */
  method Release(g: Graph, ghost order: seq<nat>, found: nat, done: array<bool>, inDeg: array<int>)
    requires g.Valid() && found < |g.names| == done.Length == inDeg.Length && found !in order
    requires forall i :: 0 <= i < |g.names| ==> done[i] == (i in order + [found])
    requires forall i :: 0 <= i < |g.names| && i !in order ==> inDeg[i] == Unmet(g.names, order, g.deps[i])
    modifies inDeg
    ensures forall i :: 0 <= i < |g.names| && i !in order + [found] ==>
              inDeg[i] == Unmet(g.names, order + [found], g.deps[i])
  {
    for i := 0 to |g.names|
      invariant forall k :: 0 <= k < i && k !in order + [found] ==>
                  inDeg[k] == Unmet(g.names, order + [found], g.deps[k])
      invariant forall k :: i <= k < |g.names| && k !in order ==> inDeg[k] == Unmet(g.names, order, g.deps[k])
    {
      if !done[i] {
        UnmetAfter(g.names, order, found, g.deps[i]);
        var listed := Lists(g.deps[i], g.names[found]);
        if listed {
          inDeg[i] := inDeg[i] - 1;
        }
      }
    }
  }

  method Lists(ds: seq<string>, name: string) returns (found: bool)
    ensures found <==> name in ds
  {
    for d := 0 to |ds|
      invariant name !in ds[..d]
    {
      if ds[d] == name {
        return true;
      }
    }
    return false;
  }

  // ---- What the order guarantees ----

  /** Distinct indices, each behind all its dependencies. */
  ghost predicate IsTopological(g: Graph, order: seq<nat>) {
    && Distinct(order)
    && (forall k :: 0 <= k < |order| ==> order[k] < |g.names|)
    && forall k, j: nat :: 0 <= k < |order| && g.Edge(order[k], j) ==> j in order[..k]
  }

  lemma TopologicalExtends(g: Graph, order: seq<nat>, i: nat)
    requires IsTopological(g, order) && i < |g.names| && g.Ready(order, i)
    ensures IsTopological(g, order + [i])
  {
    var longer := order + [i];
    forall k, j: nat | 0 <= k < |longer| && g.Edge(longer[k], j) ensures j in longer[..k] {
      if k < |order| {
        assert longer[..k] == order[..k];
      } else {
        assert longer[..k] == order;
      }
    }
  }

  lemma {:induction false} OrderExtends(g: Graph, done: seq<nat>)
    requires IsTopological(g, done) && |done| <= |g.names|
    ensures var r := Order(g, done);
            r.Some? ==> IsTopological(g, r.value) && |r.value| == |g.names| && done <= r.value
    decreases |g.names| - |done|
  {
    if |done| < |g.names| && LowestReady(g, done, 0).Some? {
      var i := LowestReady(g, done, 0).value;
      TopologicalExtends(g, done, i);
      OrderExtends(g, done + [i]);
    }
  }

  /** The result is a permutation of all types, with every dependency first. */
  lemma OrderIsPermutation(g: Graph)
    requires Order(g, []).Some?
    ensures var r := Order(g, []).value;
            && IsTopological(g, r) && |r| == |g.names|
            && forall i: nat :: i < |g.names| ==> i in r
  {
    OrderExtends(g, []);
    DistinctCovers(Order(g, []).value, |g.names|);
  }

  // ---- Failure means a cycle ----

  predicate IsWalk(g: Graph, w: seq<nat>) {
    forall k :: 0 <= k < |w| - 1 ==> g.Edge(w[k], w[k + 1])
  }

  predicate IsCycle(g: Graph, c: seq<nat>) {
    |c| >= 2 && c[0] == c[|c| - 1] && IsWalk(g, c)
  }

  lemma {:induction false} WalkDescends(g: Graph, order: seq<nat>, w: seq<nat>, k: nat)
    requires IsTopological(g, order) && IsWalk(g, w) && |w| > 0 && w[0] in order && 0 < k < |w|
    ensures exists p, q :: 0 <= q < p < |order| && order[p] == w[0] && order[q] == w[k]
  {
    var p, q;
    if k == 1 {
      p :| 0 <= p < |order| && order[p] == w[0];
      assert g.Edge(w[0], w[0 + 1]);
      q :| 0 <= q < p && order[..p][q] == w[k];
    } else {
      WalkDescends(g, order, w, k - 1);
      var m;
      p, m :| 0 <= m < p < |order| && order[p] == w[0] && order[m] == w[k - 1];
      assert g.Edge(w[k - 1], w[k - 1 + 1]);
      q :| 0 <= q < m && order[..m][q] == w[k];
    }
    assert order[q] == w[k];
  }

  lemma CycleBlocks(g: Graph, c: seq<nat>)
    requires g.Valid() && IsCycle(g, c)
    ensures Order(g, []).None?
  {
    if Order(g, []).Some? {
      OrderIsPermutation(g);
      var r := Order(g, []).value;
      assert g.Edge(c[0], c[0 + 1]);
      WalkDescends(g, r, c, |c| - 1);
    }
  }

  /** The point the algorithm got stuck at. */
  lemma {:induction false} StuckAt(g: Graph, done: seq<nat>) returns (stuck: seq<nat>)
    requires IsTopological(g, done) && |done| <= |g.names| && Order(g, done).None?
    ensures IsTopological(g, stuck) && |stuck| < |g.names|
    ensures forall i: nat :: i < |g.names| ==> !g.Ready(stuck, i)
    decreases |g.names| - |done|
  {
    var lowest := LowestReady(g, done, 0);
    if lowest.None? {
      stuck := done;
    } else {
      TopologicalExtends(g, done, lowest.value);
      stuck := StuckAt(g, done + [lowest.value]);
    }
  }

  /** When no pending type is ready, one can walk along pending dependencies for ever. */
  lemma {:induction false} StuckWalk(g: Graph, stuck: seq<nat>, i: nat, n: nat) returns (w: seq<nat>)
    requires i < |g.names| && i !in stuck
    requires forall k: nat :: k < |g.names| ==> !g.Ready(stuck, k)
    ensures |w| == n + 1 && w[0] == i && IsWalk(g, w)
    ensures forall k :: 0 <= k < |w| ==> w[k] < |g.names|
    decreases n
  {
    if n == 0 {
      w := [i];
    } else {
      assert !g.Ready(stuck, i);
      var j :| 0 <= j < |g.names| && g.Edge(i, j) && j !in stuck;
      var rest := StuckWalk(g, stuck, j, n - 1);
      w := [i] + rest;
      forall k | 0 <= k < |w| - 1 ensures g.Edge(w[k], w[k + 1]) {
        if k > 0 { assert w[k] == rest[k - 1] && w[k + 1] == rest[k - 1 + 1]; }
      }
    }
  }

  ghost predicate HasCycle(g: Graph) {
    exists c :: IsCycle(g, c)
  }

  /** Sorting fails exactly when the types depend on each other in a cycle. */
  lemma FailsExactlyOnCycles(g: Graph)
    requires g.Valid()
    ensures Order(g, []).None? <==> HasCycle(g)
  {
    if HasCycle(g) {
      var c :| IsCycle(g, c);
      CycleBlocks(g, c);
    }
    if Order(g, []).None? {
      var stuck := StuckAt(g, []);
      DistinctCovers(stuck, |g.names|);
      var i: nat :| i < |g.names| && i !in stuck;
      var w := StuckWalk(g, stuck, i, |g.names|);
      Pigeonhole(w, |g.names|);
      var a, b :| 0 <= a < b < |w| && w[a] == w[b];
      var c := w[a..b + 1];
      forall k | 0 <= k < |c| - 1 ensures g.Edge(c[k], c[k + 1]) {
        assert g.Edge(w[a + k], w[a + k + 1]);
      }
      assert IsCycle(g, c);
    }
  }

  // ---- Closed prefixes come first ----

  /** The first `m` types depend only on each other. */
  ghost predicate ClosedPrefix(g: Graph, m: nat) {
    m <= |g.names| && forall i: nat, j: nat :: i < m && g.Edge(i, j) ==> j < m
  }

  lemma ClosedPrefixHasReady(g: Graph, done: seq<nat>, full: seq<nat>, m: nat)
    requires ClosedPrefix(g, m) && IsTopological(g, full) && |full| == |g.names|
    requires Distinct(done) && |done| < m && forall k :: 0 <= k < |done| ==> done[k] < m
    ensures exists i: nat :: i < m && g.Ready(done, i)
  {
    DistinctCovers(done, m);
    DistinctCovers(full, |g.names|);
    var i: nat :| i < m && i !in done;
    assert i in full;
    var p: nat :| p < |full| && full[p] == i;
    var q := FirstPending(done, full, m, p);
    forall j: nat | g.Edge(full[q], j) ensures j in done {
      var k :| 0 <= k < q && full[..q][k] == j;
      assert full[k] == j && j < m;
    }
    assert g.Ready(done, full[q]);
  }

  /** The earliest position in `full` of a prefix member that is not done. */
  lemma {:induction false} FirstPending(done: seq<nat>, full: seq<nat>, m: nat, p: nat) returns (q: nat)
    requires p < |full| && full[p] < m && full[p] !in done
    ensures q <= p && full[q] < m && full[q] !in done
    ensures forall k :: 0 <= k < q && full[k] < m ==> full[k] in done
    decreases p
  {
    if k: nat :| k < p && full[k] < m && full[k] !in done {
      q := FirstPending(done, full, m, k);
    } else {
      q := p;
    }
  }

  lemma {:induction false} PrefixStaysFirst(g: Graph, done: seq<nat>, m: nat)
    requires ClosedPrefix(g, m) && IsTopological(g, done) && |done| <= m
    requires Order(g, done).Some? && forall k :: 0 <= k < |done| ==> done[k] < m
    ensures var r := Order(g, done).value;
            |r| >= m && forall k :: 0 <= k < m ==> r[k] < m
    decreases m - |done|
  {
    OrderExtends(g, done);
    if |done| < m {
      ClosedPrefixHasReady(g, done, Order(g, done).value, m);
      var i := LowestReady(g, done, 0).value;
      TopologicalExtends(g, done, i);
      PrefixStaysFirst(g, done + [i], m);
    }
  }

  /** Because the lowest ready index goes first, the first `m` types, if they depend only on
      each other, are emitted before all others. */
  lemma ClosedPrefixFirst(g: Graph, m: nat)
    requires ClosedPrefix(g, m) && Order(g, []).Some?
    ensures forall k :: 0 <= k < |Order(g, []).value| ==> (Order(g, []).value[k] < m <==> k < m)
  {
    PrefixStaysFirst(g, [], m);
    OrderIsPermutation(g);
    var r := Order(g, []).value;
    forall k | m <= k < |r| ensures r[k] >= m {
      if r[k] < m {
        var front := r[..m] + [r[k]];
        Pigeonhole(front, m);
        assert false;
      }
    }
  }
}
