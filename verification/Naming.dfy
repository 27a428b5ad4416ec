/** Disambiguation of lowered names: every name in a clash moves one candidate level up,
    round after round, until no clash is left. */
module Naming {
  import opened Wrappers
  import opened Sequences

  datatype FuncKind = Free | Static | Method | Constructor

  datatype OwnerKind = OwnedByInterface | OwnedByResource

  /** What naming needs to know about a function. */
  datatype Subject = Subject(
    name: string, ownerKind: OwnerKind, owner: string, interface: string,
    replyBase: string, resultShape: string, needsRequest: bool)

  datatype NameKind = Command | Reply | Request

  const MAX_LEVEL := 2

  function Join(left: string, right: string): string {
    if left != "" && right != "" then left + "-" + right
    else if right != "" then right
    else left
  }

  predicate HasResourceOwner(s: Subject) {
    s.ownerKind == OwnedByResource && s.owner != ""
  }

  function CommandCandidate(s: Subject, level: nat): string {
    if level == 0 then s.name
    else if level == 1 then
      if HasResourceOwner(s) then Join(s.owner, s.name)
      else if s.interface != "" then Join(s.interface, s.name)
      else s.name
    else
      if s.interface != "" && HasResourceOwner(s) then Join(s.interface, Join(s.owner, s.name))
      else if s.interface != "" then Join(s.interface, s.name)
      else s.name
  }

  function ReplyCandidate(s: Subject, level: nat): string {
    var base := if s.replyBase != "" then s.replyBase else s.name;
    if level == 0 then base
    else if level == 1 then
      if HasResourceOwner(s) then Join(s.owner, base) else s.name
    else
      if HasResourceOwner(s) then Join(s.owner, s.name)
      else if s.interface != "" then Join(s.interface, s.name)
      else s.name
  }

  function RequestCandidate(s: Subject, level: nat): string {
    var base := if s.ownerKind == OwnedByInterface then s.name else s.owner + "-" + s.name;
    if level == 0 then base
    else if level == 1 then Join(base, "request")
    else
      if HasResourceOwner(s) then Join(Join(s.owner, s.name), "request")
      else if s.interface != "" then Join(Join(s.interface, s.name), "request")
      else Join(base, "request")
  }

  function Candidate(kind: NameKind, s: Subject, level: nat): string {
    match kind
    case Command => CommandCandidate(s, level)
    case Reply => ReplyCandidate(s, level)
    case Request => if s.needsRequest then RequestCandidate(s, level) else ""
  }

  /** Two functions may share a reply name when their results have the same shape. */
  predicate Conflict(kind: NameKind, s1: Subject, name1: string, s2: Subject, name2: string) {
    match kind
    case Command => name1 == name2
    case Reply => name1 == name2 && s1.resultShape != s2.resultShape
    case Request => s1.needsRequest && s2.needsRequest && name1 == name2
  }

  /** The subjects to be named and the type names already declared. */
  datatype Problem = Problem(kind: NameKind, subjects: seq<Subject>, declared: string -> bool)
  {
    predicate Levels(levels: seq<nat>) {
      |levels| == |subjects| && forall i :: 0 <= i < |levels| ==> levels[i] <= MAX_LEVEL
    }

    function Name(levels: seq<nat>, i: nat): string
      requires i < |levels| == |subjects|
    {
      Candidate(kind, subjects[i], levels[i])
    }

    predicate Clash(levels: seq<nat>, i: nat, j: nat)
      requires i < |levels| == |subjects| && j < |subjects|
    {
      Conflict(kind, subjects[i], Name(levels, i), subjects[j], Name(levels, j))
    }

    predicate Taken(levels: seq<nat>, i: nat)
      requires i < |levels| == |subjects|
    {
      kind == Request && subjects[i].needsRequest && declared(Name(levels, i))
    }

    predicate Bumped(levels: seq<nat>, i: nat)
      requires i < |levels| == |subjects|
    {
      Taken(levels, i) || exists j | 0 <= j < |subjects| :: j != i && Clash(levels, i, j)
    }

    predicate Settled(levels: seq<nat>)
      requires |levels| == |subjects|
    {
      forall i | 0 <= i < |subjects| :: !Bumped(levels, i)
    }

    predicate Stuck(levels: seq<nat>)
      requires |levels| == |subjects|
    {
      exists i | 0 <= i < |subjects| :: Bumped(levels, i) && levels[i] >= MAX_LEVEL
    }

    function Raised(levels: seq<nat>): (r: seq<nat>)
      requires |levels| == |subjects|
      ensures |r| == |subjects|
    {
      seq(|subjects|, i requires 0 <= i < |subjects| => if Bumped(levels, i) then levels[i] + 1 else levels[i])
    }

    /** The levels the rounds end with, starting from `levels`; nothing if they get stuck. */
    function Settle(levels: seq<nat>): (r: Option<seq<nat>>)
      requires Levels(levels)
      ensures r.Some? ==> |r.value| == |subjects|
      decreases MAX_LEVEL * |subjects| - Sum(levels)
    {
      if Settled(levels) then Some(levels)
      else if Stuck(levels) then None
      else
        RaiseGrows(this, levels);
        SumBound(Raised(levels));
        Settle(Raised(levels))
    }
  }

  function Sum(levels: seq<nat>): nat {
    if levels == [] then 0 else levels[0] + Sum(levels[1..])
  }

  lemma {:induction false} SumBound(levels: seq<nat>)
    requires forall i :: 0 <= i < |levels| ==> levels[i] <= MAX_LEVEL
    ensures Sum(levels) <= MAX_LEVEL * |levels|
  {
    if levels != [] {
      SumBound(levels[1..]);
    }
  }

  lemma {:induction false} SumGrows(a: seq<nat>, b: seq<nat>, k: nat)
    requires |a| == |b| && k < |a| && a[k] < b[k]
    requires forall i :: 0 <= i < |a| ==> a[i] <= b[i]
    ensures Sum(a) < Sum(b)
  {
    if k > 0 {
      SumGrows(a[1..], b[1..], k - 1);
    } else {
      SumMonotone(a[1..], b[1..]);
    }
  }

  lemma {:induction false} SumMonotone(a: seq<nat>, b: seq<nat>)
    requires |a| == |b| && forall i :: 0 <= i < |a| ==> a[i] <= b[i]
    ensures Sum(a) <= Sum(b)
  {
    if a != [] {
      SumMonotone(a[1..], b[1..]);
    }
  }

  lemma {:induction false} SumZeros(n: nat)
    ensures Sum(Zeros(n)) == 0
  {
    if n > 0 {
      SumZeros(n - 1);
      assert Zeros(n)[1..] == Zeros(n - 1);
    }
  }

  function Zeros(n: nat): seq<nat> {
    seq(n, _ => 0)
  }

  lemma RaiseGrows(p: Problem, levels: seq<nat>)
    requires p.Levels(levels) && !p.Settled(levels) && !p.Stuck(levels)
    ensures p.Levels(p.Raised(levels)) && Sum(p.Raised(levels)) > Sum(levels)
  {
    var k :| 0 <= k < |p.subjects| && p.Bumped(levels, k);
    SumGrows(levels, p.Raised(levels), k);
  }

  // ---- The rounds ----

  /** Marks every subject whose current name is taken or clashes. */
  method FindBumps(p: Problem, levels: seq<nat>) returns (bump: array<bool>)
    requires |levels| == |p.subjects|
    ensures fresh(bump) && bump.Length == |p.subjects|
    ensures forall i :: 0 <= i < |p.subjects| ==> bump[i] == p.Bumped(levels, i)
  {
    var n := |p.subjects|;
    bump := new bool[n](_ => false);
    for i := 0 to n
      invariant forall k :: 0 <= k < i ==> bump[k] == p.Taken(levels, k)
      invariant forall k :: i <= k < n ==> !bump[k]
    {
      if p.kind == Request && p.subjects[i].needsRequest && p.declared(p.Name(levels, i)) {
        bump[i] := true;
      }
    }
    for i := 0 to n
      invariant forall k :: 0 <= k < n ==> bump[k] == BumpedBy(p, levels, k, i, 0)
    {
      for j := i + 1 to n
        invariant forall k :: 0 <= k < n ==> bump[k] == BumpedBy(p, levels, k, i, j)
      {
        ghost var before := bump[..];
        if Conflict(p.kind, p.subjects[i], p.Name(levels, i), p.subjects[j], p.Name(levels, j)) {
          bump[i] := true;
          bump[j] := true;
        }
        forall k | 0 <= k < n ensures bump[k] == BumpedBy(p, levels, k, i, j + 1) {
          assert before[k] == BumpedBy(p, levels, k, i, j);
          PairStep(p, levels, k, i, j);
        }
      }
      forall k | 0 <= k < n ensures bump[k] == BumpedBy(p, levels, k, i + 1, 0) {
        RowEnd(p, levels, k, i);
      }
    }
    forall k | 0 <= k < n ensures bump[k] == p.Bumped(levels, k) {
      AllPairs(p, levels, k);
    }
  }

  /** `k` is taken, or clashes in a pair (a, b) with a < b that comes before row `i`, column `j`. */
  predicate BumpedBy(p: Problem, levels: seq<nat>, k: nat, i: nat, j: nat)
    requires k < |levels| == |p.subjects|
  {
    p.Taken(levels, k) ||
    exists o | 0 <= o < |p.subjects| ::
      o != k && p.Clash(levels, k, o) && (if k < o then k < i || (k == i && o < j) else o < i || (o == i && k < j))
  }

  lemma ClashSymmetric(p: Problem, levels: seq<nat>, i: nat, j: nat)
    requires i < |levels| == |p.subjects| && j < |p.subjects|
    ensures p.Clash(levels, i, j) <==> p.Clash(levels, j, i)
  {
  }

  lemma PairStep(p: Problem, levels: seq<nat>, k: nat, i: nat, j: nat)
    requires k < |levels| == |p.subjects| && i < j < |p.subjects|
    ensures BumpedBy(p, levels, k, i, j + 1) <==>
            BumpedBy(p, levels, k, i, j) || ((k == i || k == j) && p.Clash(levels, i, j))
  {
    ClashSymmetric(p, levels, i, j);
    if p.Clash(levels, i, j) && k == i { assert p.Clash(levels, k, j); }
    if p.Clash(levels, i, j) && k == j { assert p.Clash(levels, k, i); }
  }

  lemma RowEnd(p: Problem, levels: seq<nat>, k: nat, i: nat)
    requires k < |levels| == |p.subjects| && i < |p.subjects|
    ensures BumpedBy(p, levels, k, i + 1, 0) == BumpedBy(p, levels, k, i, |p.subjects|)
  {
  }

  lemma AllPairs(p: Problem, levels: seq<nat>, k: nat)
    requires k < |levels| == |p.subjects|
    ensures BumpedBy(p, levels, k, |p.subjects|, 0) == p.Bumped(levels, k)
  {
  }

  /** Names for all subjects; fails when a subject clashes on its last level. */
  method AssignNames(p: Problem) returns (r: Option<seq<string>>, ghost rounds: nat)
    ensures r == Names(p)
    ensures rounds <= MAX_LEVEL * |p.subjects| + 1
  {
    var n := |p.subjects|;
    var levels: seq<nat> := Zeros(n);
    SumZeros(n);
    rounds := 0;
    var changed := true;
    while changed
      invariant p.Levels(levels) && p.Settle(Zeros(n)) == p.Settle(levels)
      invariant changed ==> rounds <= Sum(levels)
      invariant !changed ==> p.Settled(levels) && rounds <= Sum(levels) + 1
      decreases MAX_LEVEL * n - Sum(levels), changed
    {
      SumBound(levels);
      rounds := rounds + 1;
      var bump := FindBumps(p, levels);
      var stuck;
      changed, stuck, levels := RaiseBumped(p, levels, bump);
      if stuck {
        return None, rounds;
      }
    }
    SumBound(levels);
    var names: seq<string> := [];
    for i := 0 to n
      invariant |names| == i && forall k :: 0 <= k < i ==> names[k] == p.Name(levels, k)
    {
      names := names + [p.Name(levels, i)];
    }
    assert names == NamesAt(p, levels);
    return Some(names), rounds;
  }

  /** Moves every marked subject one level up, unless one of them has none left. */
  method RaiseBumped(p: Problem, levels: seq<nat>, bump: array<bool>)
    returns (changed: bool, stuck: bool, raised: seq<nat>)
    requires p.Levels(levels) && bump.Length == |p.subjects|
    requires forall i :: 0 <= i < |p.subjects| ==> bump[i] == p.Bumped(levels, i)
    ensures stuck == p.Stuck(levels)
    ensures !stuck ==> changed == !p.Settled(levels) && raised == p.Raised(levels)
    ensures !stuck ==> p.Levels(raised) && p.Settle(raised) == p.Settle(levels)
    ensures !stuck && changed ==> Sum(raised) > Sum(levels)
    ensures !stuck && !changed ==> raised == levels
  {
    changed, stuck, raised := false, false, levels;
    for i := 0 to |p.subjects|
      invariant |raised| == |levels| && changed == exists k :: 0 <= k < i && p.Bumped(levels, k)
      invariant forall k :: 0 <= k < i ==> p.Bumped(levels, k) ==> levels[k] < MAX_LEVEL
      invariant forall k :: 0 <= k < |levels| ==>
                  raised[k] == if k < i && p.Bumped(levels, k) then levels[k] + 1 else levels[k]
    {
      if bump[i] {
        if levels[i] >= MAX_LEVEL {
          return changed, true, levels;
        }
        raised := raised[i := levels[i] + 1];
        changed := true;
      }
    }
    assert raised == p.Raised(levels);
    if changed {
      RaiseGrows(p, levels);
      SumBound(raised);
    } else {
      assert raised == levels;
    }
  }

  function NamesAt(p: Problem, levels: seq<nat>): (names: seq<string>)
    requires |levels| == |p.subjects|
    ensures |names| == |p.subjects| && forall i :: 0 <= i < |names| ==> names[i] == p.Name(levels, i)
  {
    seq(|p.subjects|, i requires 0 <= i < |p.subjects| => p.Name(levels, i))
  }

  /** The names the rounds settle on. */
  function Names(p: Problem): (r: Option<seq<string>>)
    ensures r.Some? ==> |r.value| == |p.subjects|
  {
    match p.Settle(Zeros(|p.subjects|))
    case None => None
    case Some(levels) => Some(NamesAt(p, levels))
  }

  // ---- What the names guarantee ----

  lemma {:induction false} SettleResult(p: Problem, levels: seq<nat>)
    requires p.Levels(levels)
    ensures p.Settle(levels).Some? ==> p.Levels(p.Settle(levels).value) && p.Settled(p.Settle(levels).value)
    decreases MAX_LEVEL * |p.subjects| - Sum(levels)
  {
    if !p.Settled(levels) && !p.Stuck(levels) {
      RaiseGrows(p, levels);
      SumBound(p.Raised(levels));
      SettleResult(p, p.Raised(levels));
    }
  }

  /** On success no two subjects conflict and no request name is already declared. */
  lemma NamesDoNotConflict(p: Problem)
    requires Names(p).Some?
    ensures forall i, j :: 0 <= i < |p.subjects| && 0 <= j < |p.subjects| && i != j ==>
              !Conflict(p.kind, p.subjects[i], Names(p).value[i], p.subjects[j], Names(p).value[j])
    ensures forall i :: 0 <= i < |p.subjects| && p.kind == Request && p.subjects[i].needsRequest ==>
              !p.declared(Names(p).value[i])
  {
    var start := Zeros(|p.subjects|);
    SettleResult(p, start);
    var levels := p.Settle(start).value;
    forall i, j | 0 <= i < |p.subjects| && 0 <= j < |p.subjects| && i != j
      ensures !Conflict(p.kind, p.subjects[i], Names(p).value[i], p.subjects[j], Names(p).value[j])
    {
      assert !p.Bumped(levels, i);
      assert !p.Clash(levels, i, j);
    }
    forall i | 0 <= i < |p.subjects| && p.kind == Request && p.subjects[i].needsRequest
      ensures !p.declared(Names(p).value[i])
    {
      assert !p.Bumped(levels, i);
    }
  }

  lemma NameIsCandidate(p: Problem, i: nat) returns (level: nat)
    requires Names(p).Some? && i < |p.subjects|
    ensures Names(p).value[i] == Candidate(p.kind, p.subjects[i], level)
  {
    level := p.Settle(Zeros(|p.subjects|)).value[i];
  }

  // ---- Declaration order does not matter ----

  predicate IsPermutation(perm: seq<nat>, n: nat) {
    |perm| == n && Distinct(perm) && forall i :: 0 <= i < n ==> perm[i] < n
  }

  function Permuted<T>(s: seq<T>, perm: seq<nat>): (r: seq<T>)
    requires forall i :: 0 <= i < |perm| ==> perm[i] < |s|
    ensures |r| == |perm| && forall i :: 0 <= i < |perm| ==> r[i] == s[perm[i]]
  {
    seq(|perm|, i requires 0 <= i < |perm| => s[perm[i]])
  }

  function Shuffled(p: Problem, perm: seq<nat>): Problem
    requires IsPermutation(perm, |p.subjects|)
  {
    p.(subjects := Permuted(p.subjects, perm))
  }

  lemma ShuffledBump(p: Problem, perm: seq<nat>, levels: seq<nat>, i: nat)
    requires IsPermutation(perm, |p.subjects|) && i < |levels| == |p.subjects|
    ensures Shuffled(p, perm).Bumped(Permuted(levels, perm), i) == p.Bumped(levels, perm[i])
  {
    var q, ls := Shuffled(p, perm), Permuted(levels, perm);
    if q.Bumped(ls, i) && !q.Taken(ls, i) {
      var j :| 0 <= j < |q.subjects| && j != i && q.Clash(ls, i, j);
      assert p.Clash(levels, perm[i], perm[j]) && perm[i] != perm[j];
    }
    if p.Bumped(levels, perm[i]) && !p.Taken(levels, perm[i]) {
      var o: nat :| o < |p.subjects| && o != perm[i] && p.Clash(levels, perm[i], o);
      var j := Preimage(perm, |p.subjects|, o);
      assert q.Clash(ls, i, j);
    }
  }

  lemma ShuffledRound(p: Problem, perm: seq<nat>, levels: seq<nat>)
    requires IsPermutation(perm, |p.subjects|) && |levels| == |p.subjects|
    ensures var q, ls := Shuffled(p, perm), Permuted(levels, perm);
            && q.Settled(ls) == p.Settled(levels) && q.Stuck(ls) == p.Stuck(levels)
            && q.Raised(ls) == Permuted(p.Raised(levels), perm)
  {
    var q, ls := Shuffled(p, perm), Permuted(levels, perm);
    DistinctCovers(perm, |p.subjects|);
    forall i | 0 <= i < |perm| ensures q.Bumped(ls, i) == p.Bumped(levels, perm[i]) {
      ShuffledBump(p, perm, levels, i);
    }
    if !p.Settled(levels) {
      var o: nat :| o < |p.subjects| && p.Bumped(levels, o);
      var i := Preimage(perm, |p.subjects|, o);
      assert q.Bumped(ls, i);
    }
    if p.Stuck(levels) {
      var o: nat :| o < |p.subjects| && p.Bumped(levels, o) && levels[o] >= MAX_LEVEL;
      var i := Preimage(perm, |p.subjects|, o);
      assert q.Bumped(ls, i);
    }
    if q.Stuck(ls) {
      var i: nat :| i < |perm| && q.Bumped(ls, i) && ls[i] >= MAX_LEVEL;
      assert p.Bumped(levels, perm[i]);
    }
  }

  lemma Preimage(perm: seq<nat>, n: nat, o: nat) returns (i: nat)
    requires IsPermutation(perm, n) && o < n
    ensures i < n && perm[i] == o
  {
    DistinctCovers(perm, n);
    assert o in perm;
    i :| i < |perm| && perm[i] == o;
  }

  lemma {:induction false} ShuffledSettle(p: Problem, perm: seq<nat>, levels: seq<nat>)
    requires IsPermutation(perm, |p.subjects|) && p.Levels(levels)
    ensures Shuffled(p, perm).Settle(Permuted(levels, perm)) ==
            match p.Settle(levels) case None => None case Some(l) => Some(Permuted(l, perm))
    decreases MAX_LEVEL * |p.subjects| - Sum(levels)
  {
    ShuffledRound(p, perm, levels);
    SettleResult(p, levels);
    if !p.Settled(levels) && !p.Stuck(levels) {
      RaiseGrows(p, levels);
      SumBound(p.Raised(levels));
      ShuffledSettle(p, perm, p.Raised(levels));
    }
  }

  /** Success, and the name each function gets, do not depend on declaration order. */
  lemma NamesOrderFree(p: Problem, perm: seq<nat>)
    requires IsPermutation(perm, |p.subjects|)
    ensures Names(Shuffled(p, perm)).Some? == Names(p).Some?
    ensures Names(p).Some? ==> Names(Shuffled(p, perm)).value == Permuted(Names(p).value, perm)
  {
    ShuffledSettle(p, perm, Zeros(|p.subjects|));
    assert Permuted(Zeros(|p.subjects|), perm) == Zeros(|p.subjects|);
  }
}
