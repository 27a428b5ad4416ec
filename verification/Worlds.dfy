/** Worlds: the endpoints they expose through their includes, and the emitted index table. */
module Worlds {
  import opened Sequences

  datatype WorldRef = WorldRef(package: string, name: string)

  datatype ItemKind = Include | Import | Export

  datatype TargetKind = Unknown | Interface | World | Function

  datatype Item = Item(kind: ItemKind, targetKind: TargetKind, owner: WorldRef, name: string,
                       target: WorldRef, lowered: WorldRef)

  /** What two items must share to count as the same endpoint. */
  datatype EndpointKey = EndpointKey(kind: ItemKind, name: string, target: WorldRef, lowered: WorldRef)

  /** `paired` holds the interfaces, by package and name, whose functions were lowered to a
      command variant with its reply variant. */
  datatype Registry = Registry(package: string, worlds: seq<WorldRef>, items: seq<Item>, paired: set<WorldRef>)
  {
    /** The package an item leads to: lowered, else declared, else the current one. */
    function TargetPackage(item: Item): string {
      if item.lowered.package != "" then item.lowered.package
      else if item.target.package != "" then item.target.package
      else package
    }

    function TargetName(item: Item): string {
      if item.lowered.name != "" then item.lowered.name else item.target.name
    }

    function Included(item: Item): WorldRef {
      WorldRef(TargetPackage(item), item.target.name)
    }

    /** An item that contributes an endpoint of kind `kind`. */
    predicate Eligible(item: Item, kind: ItemKind) {
      && item.kind == kind && kind != Include
      && (item.targetKind == Interface || item.targetKind == Function)
      && WorldRef(TargetPackage(item), TargetName(item)) in paired
    }

    predicate Includes(w: WorldRef, v: WorldRef) {
      exists i | 0 <= i < |items| :: items[i].owner == w && items[i].kind == Include && Included(items[i]) == v
    }

    /** A path of includes. */
    ghost predicate IsPath(p: seq<WorldRef>) {
      p != [] && forall i :: 0 <= i < |p| - 1 ==> Includes(p[i], p[i + 1])
    }

    ghost predicate Reaches(w: WorldRef, v: WorldRef) {
      exists p :: IsPath(p) && p[0] == w && p[|p| - 1] == v
    }

    /** Every endpoint of kind `kind` that world `w` declares is in `out`. */
    ghost predicate Covered(kind: ItemKind, out: seq<Item>, w: WorldRef) {
      forall i :: 0 <= i < |items| && items[i].owner == w && Eligible(items[i], kind) ==>
        HasKey(out, KeyOf(items[i]))
    }

    /** Every world on an include path from `w` that keeps clear of `path` is covered. */
    ghost predicate CoveredFrom(kind: ItemKind, out: seq<Item>, w: WorldRef, path: seq<WorldRef>) {
      forall p :: IsPath(p) && p[0] == w && (forall v | v in p :: v !in path) ==>
        Covered(kind, out, p[|p| - 1])
    }

    /** The first `n` items are dealt with for world `w`, visited below `path`. */
    ghost predicate Scanned(kind: ItemKind, out: seq<Item>, w: WorldRef, path: seq<WorldRef>, n: nat) {
      forall i :: 0 <= i < n && i < |items| && items[i].owner == w ==>
        && (Eligible(items[i], kind) ==> HasKey(out, KeyOf(items[i])))
        && (items[i].kind == Include ==> CoveredFrom(kind, out, Included(items[i]), path + [w]))
    }

    /** A path on which only registered worlds are visited, each once. */
    ghost predicate IsVisitPath(path: seq<WorldRef>) {
      Distinct(path) && forall v | v in path :: v in worlds
    }

    /** Every include leads to a registered world; the binding resolver sees to that. */
    ghost predicate IncludesRegistered() {
      forall i :: 0 <= i < |items| && items[i].kind == Include ==> Included(items[i]) in worlds
    }
  }

  function KeyOf(item: Item): EndpointKey {
    EndpointKey(item.kind, item.name, item.target, item.lowered)
  }

  predicate HasKey(out: seq<Item>, key: EndpointKey) {
    exists i | 0 <= i < |out| :: KeyOf(out[i]) == key
  }

  predicate DistinctKeys(out: seq<Item>) {
    forall i, j :: 0 <= i < j < |out| ==> KeyOf(out[i]) != KeyOf(out[j])
  }

  const MAX_WORLDS := 128

  class Collector {
    const reg: Registry
    const kind: ItemKind
    /** The worlds being visited right now; only the current path counts. */
    const visits: array<WorldRef>
    var out: seq<Item>

    constructor (reg: Registry, kind: ItemKind)
      requires kind != Include
      ensures this.reg == reg && this.kind == kind && out == []
      ensures fresh(visits) && visits.Length == MAX_WORLDS
    {
      this.reg := reg;
      this.kind := kind;
      this.out := [];
      visits := new WorldRef[MAX_WORLDS](_ => WorldRef("", ""));
    }

    /** What was collected so far comes, once per key, from worlds reachable from `root`. */
    ghost predicate Sound(root: WorldRef)
      reads this
    {
      && kind != Include && visits.Length == MAX_WORLDS && DistinctKeys(out)
      && forall k :: 0 <= k < |out| ==>
           out[k] in reg.items && reg.Eligible(out[k], kind) && reg.Reaches(root, out[k].owner)
    }

    method Visiting(w: WorldRef, count: nat) returns (found: bool)
      requires count <= visits.Length
      ensures found <==> w in visits[..count]
    {
      for i := 0 to count
        invariant w !in visits[..i]
      {
        if visits[i] == w {
          return true;
        }
      }
      return false;
    }

    method Seen(item: Item) returns (found: bool)
      ensures found <==> HasKey(out, KeyOf(item))
    {
      for i := 0 to |out|
        invariant forall k :: 0 <= k < i ==> KeyOf(out[k]) != KeyOf(item)
      {
        if KeyOf(out[i]) == KeyOf(item) {
          return true;
        }
      }
      return false;
    }

    /** Adds an item of a visited world unless an endpoint with its key is known. */
    method Offer(item: Item, ghost root: WorldRef)
      requires Sound(root) && item in reg.items && reg.Reaches(root, item.owner)
      modifies `out
      ensures Sound(root) && old(out) <= out
      ensures reg.Eligible(item, kind) ==> HasKey(out, KeyOf(item))
    {
      if item.kind != kind || (item.targetKind != Interface && item.targetKind != Function) {
        return;
      }
      var seen := Seen(item);
      if !seen && WorldRef(reg.TargetPackage(item), reg.TargetName(item)) in reg.paired {
        out := out + [item];
        assert KeyOf(out[|out| - 1]) == KeyOf(item);
      }
    }

    /** The registry's promises that keep the path within bounds. */
    ghost predicate Bounded(path: seq<WorldRef>) {
      reg.IncludesRegistered() && |reg.worlds| <= MAX_WORLDS && reg.IsVisitPath(path)
    }

    /** Collects the endpoints of `w` and of the worlds it includes. Fails only if the path
        of worlds being visited grows past its bound, which registered worlds never do. */
    method Collect(w: WorldRef, count: nat, ghost root: WorldRef, ghost path: seq<WorldRef>) returns (ok: bool)
      requires Sound(root) && count <= MAX_WORLDS && reg.Reaches(root, w) && visits[..count] == path
      modifies `out, visits
      ensures Sound(root) && old(out) <= out && visits[..count] == path
      ensures ok ==> reg.CoveredFrom(kind, out, w, path)
      ensures (Bounded(path) && w in reg.worlds) ==> ok
      decreases MAX_WORLDS - count, 1
    {
      var visiting := Visiting(w, count);
      if visiting {
        return true;
      }
      if count >= MAX_WORLDS {
        if Bounded(path) && w in reg.worlds {
          PathFits(path, w, reg.worlds);
        }
        return false;
      }
      visits[count] := w;
      ghost var longer := path + [w];
      assert visits[..count + 1] == longer;
      for i := 0 to |reg.items|
        invariant Sound(root) && old(out) <= out && visits[..count + 1] == longer
        invariant reg.Scanned(kind, out, w, path, i)
      {
        if reg.items[i].owner == w {
          var done := CollectOwn(i, w, count + 1, root, path);
          if !done {
            Shorten(path, w, count);
            return false;
          }
        }
        ScanStep(reg, kind, out, w, path, i);
      }
      Shorten(path, w, count);
      CoverAll(reg, kind, out, w, path);
      return true;
    }

    /** Collects one item of the world that is being visited; what was scanned stays covered. */
    method CollectOwn(i: nat, w: WorldRef, count: nat, ghost root: WorldRef, ghost path: seq<WorldRef>)
      returns (ok: bool)
      requires Sound(root) && count <= MAX_WORLDS && visits[..count] == path + [w]
      requires i < |reg.items| && reg.items[i].owner == w && reg.Reaches(root, w)
      requires reg.Scanned(kind, out, w, path, i)
      modifies `out, visits
      ensures Sound(root) && old(out) <= out && visits[..count] == path + [w]
      ensures reg.Scanned(kind, out, w, path, i)
      ensures reg.Eligible(reg.items[i], kind) ==> HasKey(out, KeyOf(reg.items[i]))
      ensures ok && reg.items[i].kind == Include ==>
                reg.CoveredFrom(kind, out, reg.Included(reg.items[i]), path + [w])
      ensures Bounded(path + [w]) ==> ok
      decreases MAX_WORLDS - count, 3
    {
      ok := CollectItem(i, count, root, path + [w]);
      ScannedGrows(reg, kind, old(out), out, w, path, i);
    }

    lemma Shorten(path: seq<WorldRef>, w: WorldRef, count: nat)
      requires count < visits.Length && visits[..count + 1] == path + [w]
      ensures visits[..count] == path
    {
      assert visits[..count] == visits[..count + 1][..count];
    }

    /** Follows an include or offers an endpoint. */
    method CollectItem(i: nat, count: nat, ghost root: WorldRef, ghost path: seq<WorldRef>) returns (ok: bool)
      requires Sound(root) && count <= MAX_WORLDS && visits[..count] == path
      requires i < |reg.items| && reg.Reaches(root, reg.items[i].owner)
      modifies `out, visits
      ensures Sound(root) && old(out) <= out && visits[..count] == path
      ensures reg.Eligible(reg.items[i], kind) ==> HasKey(out, KeyOf(reg.items[i]))
      ensures ok && reg.items[i].kind == Include ==> reg.CoveredFrom(kind, out, reg.Included(reg.items[i]), path)
      ensures Bounded(path) ==> ok
      decreases MAX_WORLDS - count, 2
    {
      var item := reg.items[i];
      if item.kind == Include {
        StepReaches(reg, root, item.owner, i);
        ok := Collect(reg.Included(item), count, root, path);
      } else {
        Offer(item, root);
        ok := true;
      }
    }
  }

  /** The endpoints of a world: one item per key among exactly those that worlds reachable
      through includes declare, whatever cycles the includes form. */
  method CollectWorldEndpoints(reg: Registry, root: WorldRef, kind: ItemKind) returns (ok: bool, out: seq<Item>)
    requires kind != Include
    ensures ok ==> DistinctKeys(out)
    ensures ok ==> forall k :: 0 <= k < |out| ==>
              out[k] in reg.items && reg.Eligible(out[k], kind) && reg.Reaches(root, out[k].owner)
    ensures ok ==> forall i :: 0 <= i < |reg.items| && reg.Eligible(reg.items[i], kind)
                               && reg.Reaches(root, reg.items[i].owner) ==>
              HasKey(out, KeyOf(reg.items[i]))
    ensures (reg.IncludesRegistered() && |reg.worlds| <= MAX_WORLDS && root in reg.worlds) ==> ok
  {
    var c := new Collector(reg, kind);
    assert reg.IsPath([root]);
    ok := c.Collect(root, 0, root, []);
    out := c.out;
    if ok {
      forall i | 0 <= i < |reg.items| && reg.Eligible(reg.items[i], kind) && reg.Reaches(root, reg.items[i].owner)
        ensures HasKey(out, KeyOf(reg.items[i]))
      {
        var p :| reg.IsPath(p) && p[0] == root && p[|p| - 1] == reg.items[i].owner;
        assert reg.Covered(kind, out, p[|p| - 1]);
      }
    }
  }

  // ---- Paths ----

  /** A path of distinct registered worlds that can still grow is shorter than the registry. */
  lemma PathFits(path: seq<WorldRef>, w: WorldRef, worlds: seq<WorldRef>)
    requires Distinct(path) && w !in path && w in worlds && forall v | v in path :: v in worlds
    ensures |path| < |worlds|
  {
    var longer := path + [w];
    DistinctSize(longer);
    var visited, known := set v | v in longer, set v | v in worlds;
    SubsetSize(visited, known);
    MemberCount(worlds);
  }

  lemma {:induction false} MemberCount<T>(s: seq<T>)
    ensures |set x | x in s| <= |s|
  {
    if s == [] {
      assert (set x | x in s) == {};
    } else {
      var front, members := s[..|s| - 1], set x | x in s;
      MemberCount(front);
      assert members == (set x | x in front) + {s[|s| - 1]};
    }
  }

  lemma StepReaches(reg: Registry, root: WorldRef, w: WorldRef, i: nat)
    requires reg.Reaches(root, w) && i < |reg.items|
    requires reg.items[i].owner == w && reg.items[i].kind == Include
    ensures reg.Reaches(root, reg.Included(reg.items[i]))
  {
    var p :| reg.IsPath(p) && p[0] == root && p[|p| - 1] == w;
    var longer := p + [reg.Included(reg.items[i])];
    assert reg.IsPath(longer);
  }

  lemma HasKeyGrows(out1: seq<Item>, out2: seq<Item>, key: EndpointKey)
    requires out1 <= out2 && HasKey(out1, key)
    ensures HasKey(out2, key)
  {
    var i :| 0 <= i < |out1| && KeyOf(out1[i]) == key;
    assert out2[i] == out1[i];
  }

  lemma CoveredGrows(reg: Registry, kind: ItemKind, out1: seq<Item>, out2: seq<Item>, w: WorldRef)
    requires out1 <= out2 && reg.Covered(kind, out1, w)
    ensures reg.Covered(kind, out2, w)
  {
    forall i | 0 <= i < |reg.items| && reg.items[i].owner == w && reg.Eligible(reg.items[i], kind) {
      HasKeyGrows(out1, out2, KeyOf(reg.items[i]));
    }
  }

  lemma CoveredFromGrows(reg: Registry, kind: ItemKind, out1: seq<Item>, out2: seq<Item>, w: WorldRef,
                         path: seq<WorldRef>)
    requires out1 <= out2 && reg.CoveredFrom(kind, out1, w, path)
    ensures reg.CoveredFrom(kind, out2, w, path)
  {
    forall p | reg.IsPath(p) && p[0] == w && forall v | v in p :: v !in path {
      CoveredGrows(reg, kind, out1, out2, p[|p| - 1]);
    }
  }

  lemma ScanStep(reg: Registry, kind: ItemKind, out: seq<Item>, w: WorldRef, path: seq<WorldRef>, i: nat)
    requires reg.Scanned(kind, out, w, path, i) && i < |reg.items|
    requires reg.items[i].owner == w ==>
               && (reg.Eligible(reg.items[i], kind) ==> HasKey(out, KeyOf(reg.items[i])))
               && (reg.items[i].kind == Include ==> reg.CoveredFrom(kind, out, reg.Included(reg.items[i]), path + [w]))
    ensures reg.Scanned(kind, out, w, path, i + 1)
  {
  }

  lemma ScannedGrows(reg: Registry, kind: ItemKind, out1: seq<Item>, out2: seq<Item>, w: WorldRef,
                     path: seq<WorldRef>, n: nat)
    requires out1 <= out2 && reg.Scanned(kind, out1, w, path, n)
    ensures reg.Scanned(kind, out2, w, path, n)
  {
    forall i | 0 <= i < n && i < |reg.items| && reg.items[i].owner == w
      ensures reg.Eligible(reg.items[i], kind) ==> HasKey(out2, KeyOf(reg.items[i]))
      ensures reg.items[i].kind == Include ==> reg.CoveredFrom(kind, out2, reg.Included(reg.items[i]), path + [w])
    {
      if reg.Eligible(reg.items[i], kind) {
        HasKeyGrows(out1, out2, KeyOf(reg.items[i]));
      }
      if reg.items[i].kind == Include {
        CoveredFromGrows(reg, kind, out1, out2, reg.Included(reg.items[i]), path + [w]);
      }
    }
  }

  /** The part of a path behind the last visit to its first world. */
  lemma {:induction false} LastVisit(reg: Registry, p: seq<WorldRef>, w: WorldRef) returns (q: seq<WorldRef>)
    requires reg.IsPath(p) && p[0] == w
    ensures reg.IsPath(q) && q[0] == w && q[|q| - 1] == p[|p| - 1] && w !in q[1..]
    ensures forall v | v in q :: v in p
    decreases |p|
  {
    if k :| 1 <= k < |p| && p[k] == w {
      var tail := p[k..];
      forall i | 0 <= i < |tail| - 1 ensures reg.Includes(tail[i], tail[i + 1]) {
        assert reg.Includes(p[k + i], p[k + i + 1]);
      }
      q := LastVisit(reg, tail, w);
    } else {
      q := p;
    }
  }

  /** Covering `w` itself and everything its includes lead to without `w` is enough. */
  lemma CoverAll(reg: Registry, kind: ItemKind, out: seq<Item>, w: WorldRef, path: seq<WorldRef>)
    requires reg.Scanned(kind, out, w, path, |reg.items|)
    ensures reg.CoveredFrom(kind, out, w, path)
  {
    forall p | reg.IsPath(p) && p[0] == w && forall v | v in p :: v !in path
      ensures reg.Covered(kind, out, p[|p| - 1])
    {
      var q := LastVisit(reg, p, w);
      if |q| > 1 {
        assert reg.Includes(q[0], q[0 + 1]);
        var tail := q[1..];
        forall i | 0 <= i < |tail| - 1 ensures reg.Includes(tail[i], tail[i + 1]) {
          assert reg.Includes(q[i + 1], q[i + 1 + 1]);
        }
        assert reg.IsPath(tail);
      }
    }
  }

  // ---- The emitted index ----

  /** The items of world `w`, in registry order. */
  function ItemsOf(items: seq<Item>, w: WorldRef): seq<Item> {
    if items == [] then []
    else (if items[0].owner == w then [items[0]] else []) + ItemsOf(items[1..], w)
  }

  /** The worlds of the package being generated. */
  function Primary(package: string, worlds: seq<WorldRef>): seq<WorldRef> {
    if worlds == [] then []
    else (if worlds[0].package == package then [worlds[0]] else []) + Primary(package, worlds[1..])
  }

  function Table(items: seq<Item>, worlds: seq<WorldRef>): seq<Item> {
    if worlds == [] then [] else ItemsOf(items, worlds[0]) + Table(items, worlds[1..])
  }

  datatype Descriptor = Descriptor(world: WorldRef, offset: nat, count: nat)

  method BindingCount(reg: Registry, w: WorldRef) returns (count: nat)
    ensures count == |ItemsOf(reg.items, w)|
  {
    count := 0;
    for i := 0 to |reg.items|
      invariant count + |ItemsOf(reg.items[i..], w)| == |ItemsOf(reg.items, w)|
    {
      if reg.items[i].owner == w {
        count := count + 1;
      }
      assert reg.items[i..][1..] == reg.items[i + 1..];
    }
  }

  /** The slices the descriptors announce, one after another from `offset`. */
  predicate Announces(items: seq<Item>, ds: seq<Descriptor>, worlds: seq<WorldRef>, offset: nat) {
    if ds == [] then worlds == []
    else
      && worlds != [] && ds[0] == Descriptor(worlds[0], offset, |ItemsOf(items, worlds[0])|)
      && Announces(items, ds[1..], worlds[1..], offset + ds[0].count)
  }

  lemma {:induction false} AnnouncesConcat(items: seq<Item>, ds: seq<Descriptor>, worlds: seq<WorldRef>, offset: nat,
                                           w: WorldRef)
    requires Announces(items, ds, worlds, offset)
    ensures Announces(items, ds + [Descriptor(w, offset + |Table(items, worlds)|, |ItemsOf(items, w)|)], worlds + [w],
                      offset)
    decreases |ds|
  {
    if ds == [] {
      assert worlds + [w] == [w];
    } else {
      AnnouncesConcat(items, ds[1..], worlds[1..], offset + ds[0].count, w);
      var d := Descriptor(w, offset + |Table(items, worlds)|, |ItemsOf(items, w)|);
      assert (ds + [d])[1..] == ds[1..] + [d] && (worlds + [w])[1..] == worlds[1..] + [w];
    }
  }

  lemma {:induction false} TableConcat(items: seq<Item>, worlds: seq<WorldRef>, w: WorldRef)
    ensures Table(items, worlds + [w]) == Table(items, worlds) + ItemsOf(items, w)
  {
    if worlds == [] {
      assert worlds + [w] == [w];
    } else {
      TableConcat(items, worlds[1..], w);
      assert (worlds + [w])[1..] == worlds[1..] + [w];
    }
  }

  lemma {:induction false} PrimaryConcat(package: string, worlds: seq<WorldRef>, w: WorldRef)
    ensures Primary(package, worlds + [w]) ==
            if w.package == package then Primary(package, worlds) + [w] else Primary(package, worlds)
  {
    if worlds == [] {
      assert worlds + [w] == [w];
    } else {
      var head := if worlds[0].package == package then [worlds[0]] else [];
      PrimaryConcat(package, worlds[1..], w);
      assert (worlds + [w])[1..] == worlds[1..] + [w];
      assert head + (Primary(package, worlds[1..]) + [w]) == head + Primary(package, worlds[1..]) + [w];
    }
  }

  /** The descriptor array: offsets accumulate in registry order. */
  method EmitDescriptors(reg: Registry) returns (ds: seq<Descriptor>)
    ensures Announces(reg.items, ds, Primary(reg.package, reg.worlds), 0)
  {
    ds := [];
    var offset := 0;
    for i := 0 to |reg.worlds|
      invariant Announces(reg.items, ds, Primary(reg.package, reg.worlds[..i]), 0)
      invariant offset == |Table(reg.items, Primary(reg.package, reg.worlds[..i]))|
    {
      var w := reg.worlds[i];
      assert reg.worlds[..i + 1] == reg.worlds[..i] + [w];
      PrimaryConcat(reg.package, reg.worlds[..i], w);
      if w.package == reg.package {
        var count := BindingCount(reg, w);
        OneMoreDescriptor(reg.items, ds, Primary(reg.package, reg.worlds[..i]), w, offset, count);
        ds := ds + [Descriptor(w, offset, count)];
        offset := offset + count;
      }
    }
    assert reg.worlds[..|reg.worlds|] == reg.worlds;
  }

  lemma OneMoreDescriptor(items: seq<Item>, ds: seq<Descriptor>, worlds: seq<WorldRef>, w: WorldRef, offset: nat,
                          count: nat)
    requires Announces(items, ds, worlds, 0) && offset == |Table(items, worlds)| && count == |ItemsOf(items, w)|
    ensures Announces(items, ds + [Descriptor(w, offset, count)], worlds + [w], 0)
    ensures offset + count == |Table(items, worlds + [w])|
  {
    AnnouncesConcat(items, ds, worlds, 0, w);
    TableConcat(items, worlds, w);
    assert 0 + offset == offset;
  }

  /** The binding array, built by a loop of its own. */
  method EmitBindings(reg: Registry) returns (table: seq<Item>)
    ensures table == Table(reg.items, Primary(reg.package, reg.worlds))
  {
    table := [];
    for i := 0 to |reg.worlds|
      invariant table == Table(reg.items, Primary(reg.package, reg.worlds[..i]))
    {
      var w := reg.worlds[i];
      assert reg.worlds[..i + 1] == reg.worlds[..i] + [w];
      PrimaryConcat(reg.package, reg.worlds[..i], w);
      if w.package == reg.package {
        TableConcat(reg.items, Primary(reg.package, reg.worlds[..i]), w);
        table := AppendItems(reg, w, table);
      }
    }
    assert reg.worlds[..|reg.worlds|] == reg.worlds;
  }

  method AppendItems(reg: Registry, w: WorldRef, before: seq<Item>) returns (table: seq<Item>)
    ensures table == before + ItemsOf(reg.items, w)
  {
    table := before;
    for j := 0 to |reg.items|
      invariant table + ItemsOf(reg.items[j..], w) == before + ItemsOf(reg.items, w)
    {
      assert reg.items[j..][1..] == reg.items[j + 1..];
      if reg.items[j].owner == w {
        assert table + ([reg.items[j]] + ItemsOf(reg.items[j + 1..], w)) ==
               table + [reg.items[j]] + ItemsOf(reg.items[j + 1..], w);
        table := table + [reg.items[j]];
      }
    }
  }

  /** The items a descriptor points at. */
  function Slice(table: seq<Item>, d: Descriptor): seq<Item>
    requires d.offset + d.count <= |table|
  {
    table[d.offset..d.offset + d.count]
  }

  /** Each announced slice of the table holds exactly its world's items, in registry order. */
  lemma {:induction false} IndexAgrees(items: seq<Item>, ds: seq<Descriptor>, worlds: seq<WorldRef>,
                                       before: seq<Item>, k: nat)
    requires Announces(items, ds, worlds, |before|) && k < |ds|
    ensures var table := before + Table(items, worlds);
            k < |worlds| && ds[k].world == worlds[k] && ds[k].offset + ds[k].count <= |table|
            && Slice(table, ds[k]) == ItemsOf(items, worlds[k])
    decreases |ds|
  {
    var own := ItemsOf(items, worlds[0]);
    assert before + Table(items, worlds) == before + own + Table(items, worlds[1..]);
    if k > 0 {
      IndexAgrees(items, ds[1..], worlds[1..], before + own, k - 1);
    }
  }

  /** The slices lie end to end: where one ends the next begins, and the last ends the table. */
  lemma {:induction false} SlicesTile(items: seq<Item>, ds: seq<Descriptor>, worlds: seq<WorldRef>, offset: nat, k: nat)
    requires Announces(items, ds, worlds, offset) && k < |ds|
    ensures |ds| == |worlds| && ds[0].offset == offset
    ensures ds[k].offset + ds[k].count ==
            if k + 1 < |ds| then ds[k + 1].offset else offset + |Table(items, worlds)|
    decreases |ds|
  {
    if k > 0 {
      SlicesTile(items, ds[1..], worlds[1..], offset + ds[0].count, k - 1);
    } else if |ds| > 1 {
      SlicesTile(items, ds[1..], worlds[1..], offset + ds[0].count, 0);
    }
  }
}
