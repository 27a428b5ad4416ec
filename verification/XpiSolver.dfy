/** The XPI requirement solver: requirement closure and greedy slot choices. */
module XpiSolver {

  type Name = string

  datatype Bundle = Bundle(needs: seq<Name>, conflicts: seq<Name>, support: string, traits: seq<Name>)

  datatype Binding = Binding(slot: Name, bundle: Name)

  datatype Family = Family(traits: seq<Name>, needs: seq<Name>, bound: seq<Binding>, open: seq<Name>)

  type Bundles = map<Name, Bundle>

  datatype Xpi = Xpi(bundles: Bundles, slots: map<Name, seq<Name>>, entrypoints: map<Name, Family>,
                     machineTraits: seq<Name>)

  /** An absent family or applicability is the empty string. */
  datatype Manifest = Manifest(family: Name, applicability: string, needs: seq<Name>, prefer: map<Name, seq<Name>>)

  datatype Problem =
    | MissingFamily
    | UnknownFamily
    | UnknownSlot(slot: Name)
    | NoCandidates(slot: Name)
    | NoViable(slot: Name)

  datatype Outcome<+T> = Done(value: T) | Failed(problem: Problem)

  datatype Plan = Plan(selected: set<Name>, bindings: seq<Binding>, unresolved: seq<Name>)

  function Names(s: seq<Name>): set<Name> {
    set n | n in s
  }

  // ---------------------------------------------------------------- requirement closure

  function Needs(bundles: Bundles, n: Name): set<Name> {
    if n in bundles then Names(bundles[n].needs) else {}
  }

  predicate Closed(s: set<Name>, bundles: Bundles) {
    forall n :: n in s ==> Needs(bundles, n) <= s
  }

  /** Every name that could be reached from `seed` at all. */
  function Universe(seed: set<Name>, bundles: Bundles): set<Name> {
    seed + set n, r | n in bundles && r in bundles[n].needs :: r
  }

  /** What every requires-closed set around `seed` has in common. */
  ghost function Closure(seed: set<Name>, bundles: Bundles): set<Name> {
    set n | n in Universe(seed, bundles) && forall c :: Closed(c, bundles) && seed <= c ==> n in c
  }

  lemma UniverseClosed(seed: set<Name>, bundles: Bundles)
    ensures Closed(Universe(seed, bundles), bundles) && seed <= Universe(seed, bundles)
  {
    forall n | n in Universe(seed, bundles) ensures Needs(bundles, n) <= Universe(seed, bundles) {
      forall r | r in Needs(bundles, n) ensures r in Universe(seed, bundles) {
        assert n in bundles && r in bundles[n].needs;
      }
    }
  }

  /** The closure is itself closed, and it is inside every closed set around `seed`. */
  lemma ClosureIsLeast(seed: set<Name>, bundles: Bundles)
    ensures seed <= Closure(seed, bundles) && Closed(Closure(seed, bundles), bundles)
    ensures forall c :: Closed(c, bundles) && seed <= c ==> Closure(seed, bundles) <= c
  {
    UniverseClosed(seed, bundles);
    var s := Closure(seed, bundles);
    forall n | n in s ensures Needs(bundles, n) <= s {
      forall r | r in Needs(bundles, n) ensures r in s {
        forall c | Closed(c, bundles) && seed <= c ensures r in c {
          assert n in c && Needs(bundles, n) <= c;
        }
        assert Needs(bundles, n) <= Universe(seed, bundles);
      }
    }
  }

  lemma LeastIsClosure(s: set<Name>, seed: set<Name>, bundles: Bundles)
    requires seed <= s && Closed(s, bundles)
    requires forall c :: Closed(c, bundles) && seed <= c ==> s <= c
    ensures s == Closure(seed, bundles)
  {
    ClosureIsLeast(seed, bundles);
  }

  /** Closing in two steps is closing at once. */
  lemma ClosureOfUnion(seed: set<Name>, more: set<Name>, bundles: Bundles)
    ensures Closure(Closure(seed, bundles) + more, bundles) == Closure(seed + more, bundles)
  {
    var inner := Closure(seed, bundles);
    var outer := Closure(inner + more, bundles);
    ClosureIsLeast(seed, bundles);
    ClosureIsLeast(inner + more, bundles);
    ClosureIsLeast(seed + more, bundles);
    forall c | Closed(c, bundles) && seed + more <= c ensures outer <= c {
      assert inner <= c;
    }
    LeastIsClosure(outer, seed + more, bundles);
  }

  /** The shared set that requirement collection grows. */
  class Selection {
    const bundles: Bundles
    var names: set<Name>

    constructor (bundles: Bundles)
      ensures this.bundles == bundles && names == {}
    {
      this.bundles := bundles;
      names := {};
    }

    /** Already present names are not expanded again, so cyclic requirements end. */
    method Collect(name: Name)
      modifies this
      ensures Spreads(old(names), name, names, bundles)
      decreases |bundles.Keys - names|, 0
    {
      if name in names {
        return;
      }
      ghost var before := names;
      names := names + {name};
      if name in bundles {
        ShrinksBy(bundles.Keys - names, bundles.Keys - before, name);
        CollectNeeds(name);
        GrownSpreads(before, name, names, bundles);
      }
    }

    /** The requirements of a bundle that is selected already. */
    method CollectNeeds(name: Name)
      requires name in names && name in bundles
      modifies this
      ensures Grown(old(names), names, bundles) && Needs(bundles, name) <= names
      decreases |bundles.Keys - names|, 1
    {
      var needs := bundles[name].needs;
      for i := 0 to |needs|
        invariant Grown(old(names), names, bundles)
        invariant forall j :: 0 <= j < i ==> needs[j] in names
      {
        ghost var was := names;
        FewerLeft(bundles.Keys - was, bundles.Keys - old(names));
        Collect(needs[i]);
        GrowsFurther(old(names), was, name, needs[i], names, bundles);
      }
    }

    /** Collecting several roots closes the seed they extend. */
    method CollectAll(roots: seq<Name>, ghost seed: set<Name>)
      requires names == Closure(seed, bundles)
      modifies this
      ensures names == Closure(seed + Names(roots), bundles)
    {
      assert seed + Names([]) == seed;
      for i := 0 to |roots|
        invariant names == Closure(seed + Names(roots[..i]), bundles)
      {
        ghost var reached := seed + Names(roots[..i]);
        ClosureIsLeast(reached, bundles);
        Collect(roots[i]);
        assert seed + Names(roots[..i + 1]) == reached + {roots[i]};
        LeastIsClosure(names, reached + {roots[i]}, bundles);
      }
      assert roots[..|roots|] == roots;
    }
  }

  /** Everything new has its requirements, and every closed set around `start` holds it. */
  ghost predicate Grown(start: set<Name>, now: set<Name>, bundles: Bundles) {
    && start <= now
    && (forall n :: n in now && n !in start ==> Needs(bundles, n) <= now)
    && (forall c :: Closed(c, bundles) && start <= c ==> now <= c)
  }

  ghost predicate Spreads(before: set<Name>, name: Name, now: set<Name>, bundles: Bundles) {
    && before <= now && name in now
    && (forall n :: n in now && n !in before ==> Needs(bundles, n) <= now)
    && (forall c :: Closed(c, bundles) && before <= c && name in c ==> now <= c)
  }

  lemma GrowsFurther(start: set<Name>, was: set<Name>, root: Name, name: Name, now: set<Name>, bundles: Bundles)
    requires Grown(start, was, bundles) && Spreads(was, name, now, bundles)
    requires root in start && name in Needs(bundles, root)
    ensures Grown(start, now, bundles)
  {
    forall c | Closed(c, bundles) && start <= c ensures now <= c {
      assert Needs(bundles, root) <= c;
    }
  }

  lemma GrownSpreads(before: set<Name>, name: Name, now: set<Name>, bundles: Bundles)
    requires Grown(before + {name}, now, bundles) && Needs(bundles, name) <= now
    ensures Spreads(before, name, now, bundles)
  {
  }

  lemma FewerLeft(small: set<Name>, large: set<Name>)
    requires small <= large
    ensures |small| <= |large|
  {
    assert large == small + (large - small);
  }

  lemma ShrinksBy(small: set<Name>, large: set<Name>, gone: Name)
    requires small <= large && gone in large && gone !in small
    ensures |small| < |large|
  {
    assert large == small + (large - small);
  }

  // ---------------------------------------------------------------- applicability and conflicts

  const HOST_NEUTRAL: Name := "host-neutral"

  function IsPrefix(p: string, s: string): bool {
    |p| <= |s| && s[..|p|] == p
  }

  function Mentions(s: string, word: string): bool {
    exists i :: 0 <= i <= |s| && IsPrefix(word, s[i..])
  }

  function ManifestTraits(x: Xpi, applicability: string): set<Name> {
    if applicability == "" then {}
    else if applicability == HOST_NEUTRAL then {HOST_NEUTRAL}
    else if !IsPrefix("current-machine", applicability) then {applicability}
    else
      {"current-machine"}
      + (Names(x.machineTraits) - {"current-machine", HOST_NEUTRAL})
      + (if Mentions(applicability, "windowed") then {"windowed"} else {})
      + (if Mentions(applicability, "macos") then {"macos", "unix"} else {})
      + (if Mentions(applicability, "unix") then {"unix"} else {})
  }

  function Environment(x: Xpi, m: Manifest, f: Family): set<Name> {
    Names(f.traits) + ManifestTraits(x, m.applicability) - {HOST_NEUTRAL}
  }

  predicate Compatible(environment: set<Name>, traits: seq<Name>) {
    traits == [] || HOST_NEUTRAL in traits || environment == {} || Names(traits) <= environment
  }

  /** More traits never rule a bundle out, except that no traits at all rule nothing out. */
  lemma CompatibilityGrows(environment: set<Name>, more: set<Name>)
    requires environment <= more
    ensures (forall traits :: Compatible(environment, traits) ==> Compatible(more, traits)) <==>
            environment != {} || more == {}
  {
    if environment == {} && more != {} {
      var probe := Fresh(more);
      assert probe in [probe] && !(Names([probe]) <= more);
      assert Compatible(environment, [probe]) && !Compatible(more, [probe]);
    }
  }

  /** Some name other than "host-neutral" that is not in `s`. */
  ghost function Fresh(s: set<Name>): (n: Name)
    ensures n !in s && n != HOST_NEUTRAL
  {
    var longest := Longest(s + {HOST_NEUTRAL});
    seq(longest + 1, i => 'x')
  }

  ghost function Longest(s: set<Name>): (bound: nat)
    ensures forall n :: n in s ==> |n| <= bound
  {
    if s == {} then 0
    else
      var n :| n in s;
      var rest := Longest(s - {n});
      if |n| > rest then |n| else rest
  }

  function ConflictsOf(bundles: Bundles, n: Name): seq<Name> {
    if n in bundles then bundles[n].conflicts else []
  }

  predicate Clash(bundles: Bundles, a: Name, b: Name) {
    a in ConflictsOf(bundles, b) || b in ConflictsOf(bundles, a)
  }

  predicate ConflictsWithAny(bundles: Bundles, selected: set<Name>, candidate: Name) {
    exists n :: n in selected && Clash(bundles, candidate, n)
  }

  // ---------------------------------------------------------------- choosing a bundle for a slot

  /** Python's order on strings. */
  predicate Before(a: string, b: string) {
    b != [] && (a == [] || a[0] < b[0] || (a[0] == b[0] && Before(a[1..], b[1..])))
  }

  lemma {:induction false} BeforeIsStrictOrder(a: string, b: string, c: string)
    ensures !(Before(a, b) && Before(b, a))
    ensures a == b || Before(a, b) || Before(b, a)
    ensures Before(a, b) && Before(b, c) ==> Before(a, c)
    ensures !Before(a, a)
  {
    if a != [] && b != [] {
      if c != [] {
        BeforeIsStrictOrder(a[1..], b[1..], c[1..]);
      } else {
        BeforeIsStrictOrder(a[1..], b[1..], c);
      }
      assert a[0] == b[0] && a[1..] == b[1..] ==> a == [b[0]] + b[1..] == b;
    }
    if a != [] {
      BeforeIrreflexive(a);
    }
  }

  lemma {:induction false} BeforeIrreflexive(a: string)
    ensures !Before(a, a)
  {
    if a != [] {
      BeforeIrreflexive(a[1..]);
    }
  }

  datatype Score = Score(preference: nat, support: nat, name: Name)

  predicate Better(s: Score, t: Score) {
    || s.preference < t.preference
    || (s.preference == t.preference && s.support < t.support)
    || (s.preference == t.preference && s.support == t.support && Before(s.name, t.name))
  }

  lemma BetterIsStrictOrder(s: Score, t: Score, u: Score)
    ensures !(Better(s, t) && Better(t, s)) && !Better(s, s)
    ensures s == t || Better(s, t) || Better(t, s)
    ensures Better(s, t) && Better(t, u) ==> Better(s, u)
  {
    BeforeIsStrictOrder(s.name, t.name, u.name);
  }

  function IndexOf(s: seq<Name>, n: Name): nat
    requires n in s
  {
    if s[0] == n then 0 else 1 + IndexOf(s[1..], n)
  }

  /** Everything a choice depends on besides the current selection. */
  datatype Setting = Setting(bundles: Bundles, slots: map<Name, seq<Name>>, prefer: map<Name, seq<Name>>,
                             environment: set<Name>)
  {
    function Preferred(slot: Name): seq<Name> {
      if slot in prefer then prefer[slot] else []
    }

    function ScoreOf(slot: Name, n: Name): Score {
      var preferred := Preferred(slot);
      Score(if n in preferred then IndexOf(preferred, n) else |preferred| + 100,
            if n in bundles && bundles[n].support == "host-implemented-subset" then 0 else 1, n)
    }

    predicate Viable(selected: set<Name>, n: Name) {
      && n in bundles
      && bundles[n].support != "stub"
      && Compatible(environment, bundles[n].traits)
      && !ConflictsWithAny(bundles, selected, n)
    }

    function Filtered(selected: set<Name>, candidates: seq<Name>): seq<Name> {
      if candidates == [] then []
      else
        var front, last := candidates[..|candidates| - 1], candidates[|candidates| - 1];
        Filtered(selected, front) + (if Viable(selected, last) then [last] else [])
    }

    /** The first of the best-scoring names. */
    function Best(slot: Name, names: seq<Name>): Name
      requires names != []
    {
      if |names| == 1 then names[0]
      else
        var rest := Best(slot, names[1..]);
        if Better(ScoreOf(slot, rest), ScoreOf(slot, names[0])) then rest else names[0]
    }

    function Choice(selected: set<Name>, slot: Name): Outcome<Name> {
      if slot !in slots then Failed(UnknownSlot(slot))
      else if slots[slot] == [] then Failed(NoCandidates(slot))
      else
        var viable := Filtered(selected, slots[slot]);
        if viable == [] then Failed(NoViable(slot)) else Done(Best(slot, viable))
    }

    /** `n` is a viable candidate, and every other viable candidate scores strictly worse. */
    predicate IsPick(selected: set<Name>, slot: Name, n: Name) {
      && slot in slots && n in slots[slot] && Viable(selected, n)
      && forall v :: v in slots[slot] && Viable(selected, v) && v != n ==> Better(ScoreOf(slot, n), ScoreOf(slot, v))
    }

    lemma {:induction false} FilteredKeeps(selected: set<Name>, candidates: seq<Name>, n: Name)
      ensures n in Filtered(selected, candidates) <==> n in candidates && Viable(selected, n)
    {
      if candidates != [] {
        FilteredKeeps(selected, candidates[..|candidates| - 1], n);
      }
    }

    lemma {:induction false} BestIsBest(slot: Name, names: seq<Name>)
      requires names != []
      ensures Best(slot, names) in names
      ensures forall n :: n in names && n != Best(slot, names) ==>
                Better(ScoreOf(slot, Best(slot, names)), ScoreOf(slot, n))
    {
      if |names| > 1 {
        var best := Best(slot, names);
        var rest := Best(slot, names[1..]);
        BestIsBest(slot, names[1..]);
        BetterIsStrictOrder(ScoreOf(slot, rest), ScoreOf(slot, names[0]), ScoreOf(slot, names[0]));
        forall n | n in names && n != best ensures Better(ScoreOf(slot, best), ScoreOf(slot, n)) {
          if n != names[0] && n != rest {
            assert n in names[1..];
            BetterIsStrictOrder(ScoreOf(slot, best), ScoreOf(slot, rest), ScoreOf(slot, n));
          }
        }
      }
    }

    /** A choice is made exactly when some candidate is viable, and it is the one best-scoring candidate. */
    lemma ChoiceIsUniqueBest(selected: set<Name>, slot: Name, n: Name)
      ensures Choice(selected, slot) == Done(n) <==> IsPick(selected, slot, n)
      ensures Choice(selected, slot).Done? <==> slot in slots && exists v :: v in slots[slot] && Viable(selected, v)
    {
      if slot in slots && slots[slot] != [] {
        var candidates := slots[slot];
        var viable := Filtered(selected, candidates);
        forall v ensures v in viable <==> v in candidates && Viable(selected, v) {
          FilteredKeeps(selected, candidates, v);
        }
        if viable != [] {
          var best := Best(slot, viable);
          BestIsBest(slot, viable);
          assert Viable(selected, best);
          if IsPick(selected, slot, n) && n != best {
            BetterIsStrictOrder(ScoreOf(slot, n), ScoreOf(slot, best), ScoreOf(slot, n));
            assert false;
          }
        }
      }
    }
  }

  method ChooseSlotBundle(s: Setting, slot: Name, selected: set<Name>) returns (r: Outcome<Name>)
    ensures r == s.Choice(selected, slot)
  {
    if slot !in s.slots {
      return Failed(UnknownSlot(slot));
    }
    var candidates := s.slots[slot];
    if candidates == [] {
      return Failed(NoCandidates(slot));
    }
    var viable := [];
    for i := 0 to |candidates|
      invariant viable == s.Filtered(selected, candidates[..i])
    {
      assert candidates[..i + 1][..i] == candidates[..i];
      if s.Viable(selected, candidates[i]) {
        viable := viable + [candidates[i]];
      }
    }
    assert candidates[..|candidates|] == candidates;
    return if viable == [] then Failed(NoViable(slot)) else Done(s.Best(slot, viable));
  }

  // ---------------------------------------------------------------- solving

  /** The bundles chosen for `open`, one after the other, each against the closure reached so far. */
  ghost function Picks(s: Setting, seed: set<Name>, open: seq<Name>): Outcome<seq<Name>> {
    if open == [] then Done([])
    else
      var last := |open| - 1;
      match Picks(s, seed, open[..last])
      case Failed(problem) => Failed(problem)
      case Done(picks) =>
        match s.Choice(Closure(seed + Names(picks), s.bundles), open[last])
        case Failed(problem) => Failed(problem)
        case Done(n) => Done(picks + [n])
  }

  function BundlesOf(bindings: seq<Binding>): seq<Name> {
    seq(|bindings|, i requires 0 <= i < |bindings| => bindings[i].bundle)
  }

  function Bind(open: seq<Name>, picks: seq<Name>): seq<Binding>
    requires |open| == |picks|
  {
    seq(|open|, i requires 0 <= i < |open| => Binding(open[i], picks[i]))
  }

  /** The names required before any slot is filled. */
  function Roots(m: Manifest, f: Family): set<Name> {
    Names(f.needs) + Names(m.needs) + Names(BundlesOf(f.bound))
  }

  function SettingOf(x: Xpi, m: Manifest, f: Family): Setting {
    Setting(x.bundles, x.slots, m.prefer, Environment(x, m, f))
  }

  lemma {:induction false} PicksLength(s: Setting, seed: set<Name>, open: seq<Name>)
    ensures Picks(s, seed, open).Done? ==> |Picks(s, seed, open).value| == |open|
  {
    if open != [] {
      PicksLength(s, seed, open[..|open| - 1]);
    }
  }

  /** Once an open slot cannot be filled, neither can any longer list of slots. */
  lemma {:induction false} PicksStop(s: Setting, seed: set<Name>, open: seq<Name>, k: nat)
    requires k <= |open| && Picks(s, seed, open[..k]).Failed?
    ensures Picks(s, seed, open) == Picks(s, seed, open[..k])
  {
    if k < |open| {
      var front := open[..|open| - 1];
      assert front[..k] == open[..k];
      PicksStop(s, seed, front, k);
    } else {
      assert open[..k] == open;
    }
  }

  method FillSlots(s: Setting, open: seq<Name>, chosen: Selection, ghost seed: set<Name>)
    returns (r: Outcome<seq<Name>>)
    requires chosen.bundles == s.bundles && chosen.names == Closure(seed, s.bundles)
    modifies chosen
    ensures r == Picks(s, seed, open)
    ensures r.Done? ==> chosen.names == Closure(seed + Names(r.value), s.bundles)
  {
    var picks: seq<Name> := [];
    assert seed + Names([]) == seed;
    for i := 0 to |open|
      invariant Picks(s, seed, open[..i]) == Done(picks)
      invariant chosen.names == Closure(seed + Names(picks), s.bundles)
    {
      var choice := ChooseSlotBundle(s, open[i], chosen.names);
      assert open[..i + 1][..i] == open[..i];
      if choice.Failed? {
        PicksStop(s, seed, open, i + 1);
        return Failed(choice.problem);
      }
      chosen.CollectAll([choice.value], seed + Names(picks));
      assert seed + Names(picks) + Names([choice.value]) == seed + Names(picks + [choice.value]);
      picks := picks + [choice.value];
    }
    assert open[..|open|] == open;
    return Done(picks);
  }

  method Unresolved(open: seq<Name>, bindings: seq<Binding>) returns (names: seq<Name>)
    ensures forall n :: n in names <==> n in open && forall b :: b in bindings ==> b.slot != n
  {
    names := [];
    for i := 0 to |open|
      invariant forall n :: n in names <==> n in open[..i] && forall b :: b in bindings ==> b.slot != n
    {
      if forall b :: b in bindings ==> b.slot != open[i] {
        names := names + [open[i]];
      }
      assert open[..i + 1] == open[..i] + [open[i]];
    }
    assert open[..|open|] == open;
  }

  /**
   * A plan selects the least requires-closed set around the family's, the manifest's and the pre-bound
   * bundles and the picks; it binds every open slot and leaves none unresolved.
   */
  method Solve(x: Xpi, m: Manifest) returns (r: Outcome<Plan>)
    ensures m.family == "" ==> r == Failed(MissingFamily)
    ensures m.family != "" && m.family !in x.entrypoints ==> r == Failed(UnknownFamily)
    ensures m.family != "" && m.family in x.entrypoints ==> r == Solution(x, m, x.entrypoints[m.family])
  {
    if m.family == "" {
      return Failed(MissingFamily);
    }
    if m.family !in x.entrypoints {
      return Failed(UnknownFamily);
    }
    var f := x.entrypoints[m.family];
    var chosen := new Selection(x.bundles);
    EmptyClosure(x.bundles);
    chosen.CollectAll(f.needs, {});
    chosen.CollectAll(m.needs, {} + Names(f.needs));
    chosen.CollectAll(BundlesOf(f.bound), {} + Names(f.needs) + Names(m.needs));
    assert {} + Names(f.needs) + Names(m.needs) + Names(BundlesOf(f.bound)) == Roots(m, f);
    var picks := FillSlots(SettingOf(x, m, f), f.open, chosen, Roots(m, f));
    if picks.Failed? {
      return Failed(picks.problem);
    }
    PicksLength(SettingOf(x, m, f), Roots(m, f), f.open);
    var bindings := f.bound + Bind(f.open, picks.value);
    var unresolved := Unresolved(f.open, bindings);
    forall n | n in f.open ensures n !in unresolved {
      var i :| 0 <= i < |f.open| && f.open[i] == n;
      assert bindings[|f.bound| + i].slot == n;
    }
    HasMember(unresolved);
    return Done(Plan(chosen.names, bindings, unresolved));
  }

  ghost function Solution(x: Xpi, m: Manifest, f: Family): Outcome<Plan> {
    var s, roots := SettingOf(x, m, f), Roots(m, f);
    PicksLength(s, roots, f.open);
    match Picks(s, roots, f.open)
    case Failed(problem) => Failed(problem)
    case Done(picks) =>
      Done(Plan(Closure(roots + Names(picks), x.bundles), f.bound + Bind(f.open, picks), []))
  }

  lemma HasMember<T>(s: seq<T>)
    ensures s != [] ==> exists x :: x in s
  {
    if s != [] {
      assert s[0] in s;
    }
  }

  lemma EmptyClosure(bundles: Bundles)
    ensures Closure({}, bundles) == {}
  {
    ClosureIsLeast({}, bundles);
    assert Closed({}, bundles);
  }

  // ---------------------------------------------------------------- order does not matter

  /** The same data with requirements, conflicts, traits and candidates listed in any order, any number of times. */
  predicate SameUpToOrder(s: Setting, t: Setting) {
    && s.bundles.Keys == t.bundles.Keys && s.slots.Keys == t.slots.Keys
    && s.prefer == t.prefer && s.environment == t.environment
    && (forall n :: n in s.bundles ==> SameBundle(s.bundles[n], t.bundles[n]))
    && (forall n :: n in s.slots ==> Names(s.slots[n]) == Names(t.slots[n]))
  }

  predicate SameBundle(a: Bundle, b: Bundle) {
    && Names(a.needs) == Names(b.needs) && Names(a.conflicts) == Names(b.conflicts)
    && a.support == b.support && Names(a.traits) == Names(b.traits)
  }

  lemma SameNames(a: seq<Name>, b: seq<Name>)
    requires Names(a) == Names(b)
    ensures a == [] <==> b == []
    ensures forall n :: n in a <==> n in b
  {
    forall n ensures n in a <==> n in b {
      assert n in a <==> n in Names(a);
      assert n in b <==> n in Names(b);
    }
    HasMember(a);
    HasMember(b);
  }

  lemma SameClosure(s: Setting, t: Setting, seed: set<Name>)
    requires SameUpToOrder(s, t)
    ensures Closure(seed, s.bundles) == Closure(seed, t.bundles)
  {
    forall c ensures Closed(c, s.bundles) <==> Closed(c, t.bundles) {
      assert forall n :: Needs(s.bundles, n) == Needs(t.bundles, n);
    }
    ClosureIsLeast(seed, s.bundles);
    ClosureIsLeast(seed, t.bundles);
  }

  lemma SameViability(s: Setting, t: Setting, selected: set<Name>, n: Name)
    requires SameUpToOrder(s, t)
    ensures s.Viable(selected, n) <==> t.Viable(selected, n)
  {
    forall a ensures forall x :: x in ConflictsOf(s.bundles, a) <==> x in ConflictsOf(t.bundles, a) {
      SameNames(ConflictsOf(s.bundles, a), ConflictsOf(t.bundles, a));
    }
    forall m ensures Clash(s.bundles, n, m) <==> Clash(t.bundles, n, m) {
    }
    if n in s.bundles {
      SameNames(s.bundles[n].traits, t.bundles[n].traits);
    }
  }

  lemma SameChoice(s: Setting, t: Setting, selected: set<Name>, slot: Name)
    requires SameUpToOrder(s, t)
    ensures s.Choice(selected, slot) == t.Choice(selected, slot)
  {
    forall n ensures s.Viable(selected, n) <==> t.Viable(selected, n) {
      SameViability(s, t, selected, n);
    }
    if slot in s.slots {
      SameNames(s.slots[slot], t.slots[slot]);
      forall n ensures s.ScoreOf(slot, n) == t.ScoreOf(slot, n) {
      }
      match s.Choice(selected, slot)
      case Done(n) =>
        s.ChoiceIsUniqueBest(selected, slot, n);
        t.ChoiceIsUniqueBest(selected, slot, n);
      case Failed(_) =>
        s.ChoiceIsUniqueBest(selected, slot, slot);
        t.ChoiceIsUniqueBest(selected, slot, slot);
    }
  }

  /** The picks, or the first slot that cannot be filled, do not depend on how the lists are ordered. */
  lemma {:induction false} PicksOrderFree(s: Setting, t: Setting, seed: set<Name>, open: seq<Name>)
    requires SameUpToOrder(s, t)
    ensures Picks(s, seed, open) == Picks(t, seed, open)
  {
    if open != [] {
      var last := |open| - 1;
      PicksOrderFree(s, t, seed, open[..last]);
      if Picks(s, seed, open[..last]).Done? {
        var reached := seed + Names(Picks(s, seed, open[..last]).value);
        SameClosure(s, t, reached);
        SameChoice(s, t, Closure(reached, s.bundles), open[last]);
      }
    }
  }

  /** So is the whole plan, once the roots and the open slots are the same. */
  lemma SolutionOrderFree(x: Xpi, y: Xpi, m: Manifest, f: Family, g: Family)
    requires SameUpToOrder(SettingOf(x, m, f), SettingOf(y, m, g))
    requires Roots(m, f) == Roots(m, g) && f.open == g.open && f.bound == g.bound
    ensures Solution(x, m, f) == Solution(y, m, g)
  {
    var s, t := SettingOf(x, m, f), SettingOf(y, m, g);
    PicksOrderFree(s, t, Roots(m, f), f.open);
    PicksLength(s, Roots(m, f), f.open);
    if Picks(s, Roots(m, f), f.open).Done? {
      SameClosure(s, t, Roots(m, f) + Names(Picks(s, Roots(m, f), f.open).value));
    }
  }

  /** Each pick is the unique best candidate at its turn and conflicts with nothing selected by then. */
  lemma {:induction false} PicksAreBest(s: Setting, seed: set<Name>, open: seq<Name>, i: nat)
    requires Picks(s, seed, open).Done? && i < |open|
    ensures var picks := Picks(s, seed, open).value;
            && |picks| == |open|
            && var reached := Closure(seed + Names(picks[..i]), s.bundles);
            s.IsPick(reached, open[i], picks[i]) && !ConflictsWithAny(s.bundles, reached, picks[i])
  {
    PicksLength(s, seed, open);
    var last := |open| - 1;
    var picks := Picks(s, seed, open).value;
    PicksLength(s, seed, open[..last]);
    var front := Picks(s, seed, open[..last]).value;
    assert picks[..last] == front;
    if i == last {
      s.ChoiceIsUniqueBest(Closure(seed + Names(front), s.bundles), open[last], picks[last]);
    } else {
      PicksAreBest(s, seed, open[..last], i);
      assert picks[..i] == front[..i];
    }
  }

  // ---------------------------------------------------------------- conflicts in the final selection

  predicate Harmonious(bundles: Bundles, s: set<Name>) {
    forall a, b :: a in s && b in s ==> !Clash(bundles, a, b)
  }

  /** What a pick drags in besides itself: the pairs of names that no check looks at. */
  ghost predicate QuietPull(bundles: Bundles, before: set<Name>, pick: Name) {
    var after := Closure(before + {pick}, bundles);
    && !Clash(bundles, pick, pick)
    && forall a, b :: a in after && a !in before && a != pick && b in after ==> !Clash(bundles, a, b)
  }

  /** Every pick of a list drags in only requirements that clash with nothing. */
  ghost predicate QuietPulls(bundles: Bundles, seed: set<Name>, picks: seq<Name>) {
    picks == [] ||
    var front, pick := picks[..|picks| - 1], picks[|picks| - 1];
    QuietPulls(bundles, seed, front) && QuietPull(bundles, Closure(seed + Names(front), bundles), pick)
  }

  /**
   * The selection is free of conflicts exactly when the roots' closure is and each pick drags in only
   * requirements that clash with nothing; the solver itself checks neither.
   */
  lemma {:induction false} HarmonyExactly(s: Setting, seed: set<Name>, open: seq<Name>, picks: seq<Name>)
    requires Picks(s, seed, open) == Done(picks)
    ensures Harmonious(s.bundles, Closure(seed + Names(picks), s.bundles)) <==>
            Harmonious(s.bundles, Closure(seed, s.bundles)) && QuietPulls(s.bundles, seed, picks)
  {
    if open == [] {
      assert seed + Names(picks) == seed;
    } else {
      var last := |open| - 1;
      var front := Picks(s, seed, open[..last]).value;
      HarmonyExactly(s, seed, open[..last], front);
      var before := Closure(seed + Names(front), s.bundles);
      var pick := picks[|picks| - 1];
      assert picks == front + [pick] && picks[..|picks| - 1] == front;
      s.ChoiceIsUniqueBest(before, open[last], pick);
      OnePull(s.bundles, before, pick);
      ClosureOfUnion(seed + Names(front), {pick}, s.bundles);
      assert seed + Names(front) + {pick} == seed + Names(picks);
    }
  }

  lemma OnePull(bundles: Bundles, before: set<Name>, pick: Name)
    requires !ConflictsWithAny(bundles, before, pick)
    ensures Harmonious(bundles, Closure(before + {pick}, bundles)) <==>
            Harmonious(bundles, before) && QuietPull(bundles, before, pick)
  {
    ClosureIsLeast(before + {pick}, bundles);
    var after := Closure(before + {pick}, bundles);
    if Harmonious(bundles, before) && QuietPull(bundles, before, pick) {
      forall a, b | a in after && b in after ensures !Clash(bundles, a, b) {
        assert Clash(bundles, a, b) == Clash(bundles, b, a);
      }
    }
  }

  // ---- A condition on the input ----

  /** The candidates of the open slots. */
  function Candidates(s: Setting, open: seq<Name>): set<Name> {
    set slot, c | slot in open && slot in s.slots && c in s.slots[slot] :: c
  }

  /** Every candidate is at peace with itself, and what it requires clashes with nothing that the roots and
      the candidates together can bring in. */
  ghost predicate PeacefulCandidates(s: Setting, seed: set<Name>, open: seq<Name>) {
    var reach := Closure(seed + Candidates(s, open), s.bundles);
    forall c :: c in Candidates(s, open) ==>
      && !Clash(s.bundles, c, c)
      && forall a, b :: a in Closure({c}, s.bundles) && a != c && b in reach ==> !Clash(s.bundles, a, b)
  }

  lemma {:induction false} PicksAreCandidates(s: Setting, seed: set<Name>, open: seq<Name>)
    requires Picks(s, seed, open).Done?
    ensures Names(Picks(s, seed, open).value) <= Candidates(s, open)
  {
    if open != [] {
      var last := |open| - 1;
      PicksAreCandidates(s, seed, open[..last]);
      var front := Picks(s, seed, open[..last]).value;
      var picks := Picks(s, seed, open).value;
      s.ChoiceIsUniqueBest(Closure(seed + Names(front), s.bundles), open[last], picks[|front|]);
      assert Candidates(s, open[..last]) <= Candidates(s, open);
      assert forall n :: n in picks ==> n in front || n == picks[|front|];
    }
  }

  lemma ClosureMonotone(seed: set<Name>, more: set<Name>, bundles: Bundles)
    requires seed <= more
    ensures Closure(seed, bundles) <= Closure(more, bundles)
  {
    ClosureIsLeast(seed, bundles);
    ClosureIsLeast(more, bundles);
  }

  /** What a pick adds to a closed selection comes from its own closure. */
  lemma AddedByPick(bundles: Bundles, before: set<Name>, pick: Name)
    requires Closed(before, bundles)
    ensures Closure(before + {pick}, bundles) == before + Closure({pick}, bundles)
  {
    ClosureIsLeast({pick}, bundles);
    ClosureIsLeast(before + {pick}, bundles);
    var both := before + Closure({pick}, bundles);
    assert Closed(both, bundles);
    ClosureMonotone({pick}, before + {pick}, bundles);
    assert before + {pick} <= both;
  }

  lemma PeacefulPull(s: Setting, seed: set<Name>, open: seq<Name>, front: seq<Name>, pick: Name)
    requires PeacefulCandidates(s, seed, open) && pick in Candidates(s, open) && Names(front) <= Candidates(s, open)
    ensures QuietPull(s.bundles, Closure(seed + Names(front), s.bundles), pick)
  {
    var before := Closure(seed + Names(front), s.bundles);
    ClosureIsLeast(seed + Names(front), s.bundles);
    AddedByPick(s.bundles, before, pick);
    ClosureOfUnion(seed + Names(front), {pick}, s.bundles);
    ClosureMonotone(seed + Names(front) + {pick}, seed + Candidates(s, open), s.bundles);
  }

  lemma {:induction false} PeacefulPulls(s: Setting, seed: set<Name>, open: seq<Name>, picks: seq<Name>)
    requires PeacefulCandidates(s, seed, open) && Names(picks) <= Candidates(s, open)
    ensures QuietPulls(s.bundles, seed, picks)
  {
    if picks != [] {
      var front, pick := picks[..|picks| - 1], picks[|picks| - 1];
      assert Names(front) <= Names(picks) && pick in Names(picks);
      PeacefulPulls(s, seed, open, front);
      PeacefulPull(s, seed, open, front, pick);
    }
  }

  /** If the roots' closure is free of conflicts and the candidates are peaceful, so is every solution. */
  lemma PeacefulInputIsHarmonious(s: Setting, seed: set<Name>, open: seq<Name>, picks: seq<Name>)
    requires Picks(s, seed, open) == Done(picks)
    requires Harmonious(s.bundles, Closure(seed, s.bundles)) && PeacefulCandidates(s, seed, open)
    ensures Harmonious(s.bundles, Closure(seed + Names(picks), s.bundles))
  {
    PicksAreCandidates(s, seed, open);
    PeacefulPulls(s, seed, open, picks);
    HarmonyExactly(s, seed, open, picks);
  }

  /** Each open slot has a single candidate. */
  predicate Forced(s: Setting, open: seq<Name>) {
    forall slot :: slot in open ==> slot in s.slots && |s.slots[slot]| == 1
  }

  lemma {:induction false} ForcedPicks(s: Setting, seed: set<Name>, open: seq<Name>)
    requires Forced(s, open) && Picks(s, seed, open).Done?
    ensures Names(Picks(s, seed, open).value) == Candidates(s, open)
  {
    if open == [] {
      assert Candidates(s, open) == {};
    } else {
      var last := |open| - 1;
      var slot := open[last];
      assert slot in open;
      ForcedPicks(s, seed, open[..last]);
      var front := Picks(s, seed, open[..last]).value;
      var pick := ForcedChoice(s, Closure(seed + Names(front), s.bundles), slot);
      ForcedStep(s, front, pick, open[..last], slot);
      assert open == open[..last] + [slot];
    }
  }

  lemma ForcedStep(s: Setting, front: seq<Name>, pick: Name, open: seq<Name>, slot: Name)
    requires slot in s.slots && Names(s.slots[slot]) == {pick} && Names(front) == Candidates(s, open)
    ensures Names(front + [pick]) == Candidates(s, open + [slot])
  {
    NamesAdd(front, pick);
    CandidatesAdd(s, open, slot);
  }

  lemma ForcedChoice(s: Setting, selected: set<Name>, slot: Name) returns (pick: Name)
    requires slot in s.slots && |s.slots[slot]| == 1 && s.Choice(selected, slot).Done?
    ensures s.Choice(selected, slot) == Done(pick) && Names(s.slots[slot]) == {pick}
  {
    pick := s.Choice(selected, slot).value;
    s.ChoiceIsUniqueBest(selected, slot, pick);
  }

  lemma NamesAdd(front: seq<Name>, n: Name)
    ensures Names(front + [n]) == Names(front) + {n}
  {
  }

  lemma CandidatesAdd(s: Setting, open: seq<Name>, slot: Name)
    requires slot in s.slots
    ensures Candidates(s, open + [slot]) == Candidates(s, open) + Names(s.slots[slot])
  {
    forall c | c in Candidates(s, open + [slot]) ensures c in Candidates(s, open) + Names(s.slots[slot]) {
      var o :| o in open + [slot] && o in s.slots && c in s.slots[o];
      assert o in open || o == slot;
    }
  }

  /** When every slot has one candidate, the condition on the input is also necessary. */
  lemma ForcedHarmonyExactly(s: Setting, seed: set<Name>, open: seq<Name>, picks: seq<Name>)
    requires Forced(s, open) && Picks(s, seed, open) == Done(picks)
    ensures Harmonious(s.bundles, Closure(seed + Names(picks), s.bundles)) <==>
            Harmonious(s.bundles, Closure(seed, s.bundles)) && PeacefulCandidates(s, seed, open)
  {
    ForcedPicks(s, seed, open);
    var reach := Closure(seed + Candidates(s, open), s.bundles);
    if Harmonious(s.bundles, reach) {
      ClosureMonotone(seed, seed + Candidates(s, open), s.bundles);
      ClosureIsLeast(seed + Candidates(s, open), s.bundles);
      forall c | c in Candidates(s, open) ensures Closure({c}, s.bundles) <= reach && c in reach {
        ClosureMonotone({c}, seed + Candidates(s, open), s.bundles);
      }
    }
    if Harmonious(s.bundles, Closure(seed, s.bundles)) && PeacefulCandidates(s, seed, open) {
      PeacefulInputIsHarmonious(s, seed, open, picks);
    }
  }

  lemma OneSlot(s: Setting, seed: set<Name>, slot: Name, n: Name)
    requires Closure(seed, s.bundles) == seed && s.IsPick(seed, slot, n)
    ensures Picks(s, seed, [slot]) == Done([n])
  {
    s.ChoiceIsUniqueBest(seed, slot, n);
    assert seed + Names([]) == seed && [slot][..0] == [];
    assert Picks(s, seed, [slot][..|[slot]| - 1]) == Done([]);
    assert [] + [n] == [n];
  }

  /** A pick's own requirement may conflict with what is already selected, and the solver still succeeds. */
  lemma RequirementOfPickMayConflict(s: Setting, a: Name, b: Name, c: Name, slot: Name)
    requires a != b && b != c && a != c
    requires s.bundles.Keys == {a, b, c} && s.slots == map[slot := [b]]
    requires s.bundles[a] == Bundle([], [c], "", []) && s.bundles[b] == Bundle([c], [], "", [])
    requires s.bundles[c] == Bundle([], [], "", [])
    ensures Picks(s, {a}, [slot]) == Done([b])
    ensures !Harmonious(s.bundles, Closure({a} + Names([b]), s.bundles))
  {
    assert Needs(s.bundles, a) == {};
    LeastIsClosure({a}, {a}, s.bundles);
    assert !ConflictsWithAny(s.bundles, {a}, b);
    OneSlot(s, {a}, slot, b);
    var end := Closure({a} + Names([b]), s.bundles);
    ClosureIsLeast({a} + Names([b]), s.bundles);
    assert b in Names([b]) && b in end && Needs(s.bundles, b) <= end;
    assert c in Needs(s.bundles, b);
    assert Clash(s.bundles, a, c);
  }
}
