/** The recursive-descent type parser over the scanner, allocating its nodes in a shared pool. */
module TypeParser {
  import opened Wrappers
  import opened ScanText
  import opened Scanners
  import opened TypeText

  const NO_TYPE := -1

  datatype Node = NameNode(name: string) | GenericNode(kind: Kind, params: seq<int>)

  /** Every parameter is omitted or lies above the node that uses it, so the pool has no cycles. */
  predicate Ordered(nodes: seq<Node>) {
    forall i :: 0 <= i < |nodes| ==> OrderedAt(nodes, i)
  }

  predicate OrderedAt(nodes: seq<Node>, i: int)
    requires 0 <= i < |nodes|
  {
    nodes[i].GenericNode? ==> AllAbove(nodes[i].params, i, |nodes|)
  }

  predicate AllAbove(params: seq<int>, low: int, high: int) {
    forall k :: 0 <= k < |params| ==> params[k] == NO_TYPE || low < params[k] < high
  }

  /** The type expression a pool index stands for. */
  function TreeAt(nodes: seq<Node>, i: int): Tree
    requires Ordered(nodes) && -1 <= i < |nodes|
    decreases if i < 0 then 0 else |nodes| - i, 0
  {
    if i < 0 then Omitted
    else
      match nodes[i]
      case NameNode(name) => Named(name)
      case GenericNode(kind, params) => assert OrderedAt(nodes, i); Generic(kind, Trees(nodes, params, i))
  }

  function Trees(nodes: seq<Node>, params: seq<int>, low: nat): (r: seq<Tree>)
    requires Ordered(nodes) && low < |nodes| && AllAbove(params, low, |nodes|)
    ensures |r| == |params|
    decreases |nodes| - low - 1, 1
  {
    seq(|params|, k requires 0 <= k < |params| => TreeAt(nodes, params[k]))
  }

  /** A tree is made of nodes at and above its index only. */
  lemma {:induction false} TreeDependsAbove(nodes: seq<Node>, more: seq<Node>, i: int)
    requires Ordered(nodes) && Ordered(more) && -1 <= i < |nodes| <= |more|
    requires forall j :: 0 <= i <= j < |nodes| ==> more[j] == nodes[j]
    ensures TreeAt(more, i) == TreeAt(nodes, i)
    decreases if i < 0 then 0 else |nodes| - i, 0
  {
    if i >= 0 && nodes[i].GenericNode? {
      assert OrderedAt(nodes, i) && OrderedAt(more, i);
      TreesDependAbove(nodes, more, nodes[i].params, i);
    }
  }

  lemma {:induction false} TreesDependAbove(nodes: seq<Node>, more: seq<Node>, params: seq<int>, low: nat)
    requires Ordered(nodes) && Ordered(more) && low < |nodes| <= |more| && AllAbove(params, low, |nodes|)
    requires forall j :: low < j < |nodes| ==> more[j] == nodes[j]
    ensures AllAbove(params, low, |more|) && Trees(more, params, low) == Trees(nodes, params, low)
    decreases |nodes| - low - 1, 1
  {
    forall k | 0 <= k < |params| ensures TreeAt(more, params[k]) == TreeAt(nodes, params[k]) {
      TreeDependsAbove(nodes, more, params[k]);
    }
  }

  /** Only new nodes were added. */
  predicate Extends(before: seq<Node>, now: seq<Node>) {
    |before| <= |now| && now[..|before|] == before
  }

  class TypePool {
    var nodes: seq<Node>

    ghost predicate Valid()
      reads this
    {
      Ordered(nodes)
    }

    constructor ()
      ensures Valid() && nodes == []
    {
      nodes := [];
    }

    method Alloc(node: Node) returns (i: nat)
      requires Valid() && (node.GenericNode? ==> node.params == [])
      modifies this
      ensures Valid() && i == |old(nodes)| && nodes == old(nodes) + [node]
    {
      i := |nodes|;
      nodes := nodes + [node];
      forall j | 0 <= j < |nodes| ensures OrderedAt(nodes, j) {
        assert j < i ==> OrderedAt(old(nodes), j);
      }
    }

    method AddParam(i: nat, param: int)
      requires Valid() && i < |nodes| && nodes[i].GenericNode?
      requires param == NO_TYPE || i < param < |nodes|
      modifies this
      ensures Valid()
      ensures nodes == old(nodes)[i := GenericNode(old(nodes)[i].kind, old(nodes)[i].params + [param])]
    {
      nodes := nodes[i := nodes[i].(params := nodes[i].params + [param])];
      forall j | 0 <= j < |nodes| ensures OrderedAt(nodes, j) {
        assert OrderedAt(old(nodes), j);
      }
    }
  }

  /** Parses one type; the new node comes right after the nodes there were, its children after it. */
  method ParseTypeExpr(s: Scanner, pool: TypePool) returns (i: int)
    requires s.Valid() && pool.Valid()
    modifies s, pool
    ensures s.Valid() && pool.Valid() && Extends(old(pool.nodes), pool.nodes)
    ensures i == NO_TYPE <==> ParseType(old(s.Rest())).None?
    ensures i != NO_TYPE ==> i == |old(pool.nodes)| < |pool.nodes|
    ensures i != NO_TYPE ==> ParseType(old(s.Rest())) == Some((TreeAt(pool.nodes, i), s.Rest()))
    ensures i == NO_TYPE ==> s.Rest() == TypeStop(old(s.Rest()))
    ensures |s.Rest()| <= |old(s.Rest())|
    decreases |s.Rest()|, 0
  {
    var name := s.ScanIdent();
    if name == "" {
      return NO_TYPE;
    }
    s.SkipWhitespace();
    if s.PeekChar() != '<' {
      i := pool.Alloc(if name == "result" then GenericNode(ResultKind, []) else NameNode(name));
      return;
    }
    var _ := s.Advance();
    var kind := KindOf(name);
    if kind.None? {
      return NO_TYPE;
    }
    i := ParseGeneric(s, pool, kind.value);
  }

  /** Where the parameters go wrong, or where their closing bracket is missing. */
  function GenericStop(s: string): string {
    if ParseParams(s, MAX_PARAMS).None? then ParamsStop(s, MAX_PARAMS)
    else AfterTrivia(ParseParams(s, MAX_PARAMS).value.1)
  }

  /** The parameters and the closing bracket of a generic type. */
  method ParseGeneric(s: Scanner, pool: TypePool, kind: Kind) returns (i: int)
    requires s.Valid() && pool.Valid()
    modifies s, pool
    ensures s.Valid() && pool.Valid() && Extends(old(pool.nodes), pool.nodes)
    ensures i == NO_TYPE <==> Close(kind, ParseParams(old(s.Rest()), MAX_PARAMS)).None?
    ensures i != NO_TYPE ==> i == |old(pool.nodes)| < |pool.nodes|
    ensures i != NO_TYPE ==>
              Close(kind, ParseParams(old(s.Rest()), MAX_PARAMS)) == Some((TreeAt(pool.nodes, i), s.Rest()))
    ensures i == NO_TYPE ==> s.Rest() == GenericStop(old(s.Rest()))
    ensures |s.Rest()| <= |old(s.Rest())|
    decreases |s.Rest()|, 4
  {
    i := pool.Alloc(GenericNode(kind, []));
    var ok := ParseParamList(s, pool, i);
    if !ok {
      return NO_TYPE;
    }
    assert OrderedAt(pool.nodes, i);
    ok := s.MatchChar('>');
    if !ok {
      return NO_TYPE;
    }
  }

  method ParseGenericParam(s: Scanner, pool: TypePool) returns (ok: bool, i: int)
    requires s.Valid() && pool.Valid()
    modifies s, pool
    ensures s.Valid() && pool.Valid() && Extends(old(pool.nodes), pool.nodes)
    ensures ok <==> ParseParam(old(s.Rest())).Some?
    ensures ok ==> i == NO_TYPE || |old(pool.nodes)| <= i < |pool.nodes|
    ensures ok ==> ParseParam(old(s.Rest())) == Some((TreeAt(pool.nodes, i), s.Rest()))
    ensures !ok ==> s.Rest() == ParamStop(old(s.Rest()))
    ensures |s.Rest()| <= |old(s.Rest())|
    decreases |s.Rest()|, 1
  {
    s.SkipWhitespace();
    if s.PeekChar() == '_' {
      var _ := s.Advance();
      return true, NO_TYPE;
    }
    i := ParseTypeExpr(s, pool);
    ok := i >= 0;
  }

  function After(front: seq<Tree>, r: Parsed<seq<Tree>>): Parsed<seq<Tree>> {
    if r.None? then None else Some((front + r.value.0, r.value.1))
  }

  lemma AfterPrepend(front: seq<Tree>, t: Tree, r: Parsed<seq<Tree>>)
    ensures After(front, Prepend(t, r)) == After(front + [t], r)
    ensures After([], r) == r
  {
    if r.Some? {
      assert [] + r.value.0 == r.value.0;
      assert front + ([t] + r.value.0) == front + [t] + r.value.0;
    }
  }

  /** What is left to parse completes the parameters read so far to the whole list. */
  predicate OnTrack(body: string, done: seq<Tree>, rest: string) {
    |done| <= MAX_PARAMS &&
    ParseParams(body, MAX_PARAMS) ==
    if |done| < MAX_PARAMS then After(done, ParseParams(rest, MAX_PARAMS - |done|)) else Some((done, rest))
  }

  /** Where the rest goes wrong, the whole list does. */
  predicate StopsAlike(body: string, done: seq<Tree>, rest: string) {
    |done| < MAX_PARAMS ==> ParamsStop(body, MAX_PARAMS) == ParamsStop(rest, MAX_PARAMS - |done|)
  }

  lemma StillStopsAlike(body: string, done: seq<Tree>, rest: string, more: seq<Tree>, t: string)
    requires StopsAlike(body, done, rest) && |more| == |done| + 1 <= MAX_PARAMS
    requires ParseParam(rest).Some? && t == AfterTrivia(ParseParam(rest).value.1) && Peek(t) == ','
    ensures StopsAlike(body, more, t[1..])
  {
  }

  lemma StaysOnTrack(body: string, done: seq<Tree>, rest: string, t: string)
    requires OnTrack(body, done, rest) && |done| < MAX_PARAMS
    requires ParseParam(rest).Some? && t == AfterTrivia(ParseParam(rest).value.1)
    ensures var now := done + [ParseParam(rest).value.0];
            if Peek(t) == ',' then OnTrack(body, now, t[1..]) else ParseParams(body, MAX_PARAMS) == Some((now, t))
  {
    var tree := ParseParam(rest).value.0;
    if Peek(t) == ',' && |done| + 1 < MAX_PARAMS {
      AfterPrepend(done, tree, ParseParams(t[1..], MAX_PARAMS - |done| - 1));
    }
  }

  method ParseParamList(s: Scanner, pool: TypePool, i: nat) returns (ok: bool)
    requires s.Valid() && pool.Valid()
    requires i == |pool.nodes| - 1 && pool.nodes[i].GenericNode? && pool.nodes[i].params == []
    modifies s, pool
    ensures s.Valid() && pool.Valid() && |pool.nodes| > i && pool.nodes[..i] == old(pool.nodes)[..i]
    ensures pool.nodes[i].GenericNode? && pool.nodes[i].kind == old(pool.nodes)[i].kind
    ensures ok <==> ParseParams(old(s.Rest()), MAX_PARAMS).Some?
    ensures ok ==> ParseParams(old(s.Rest()), MAX_PARAMS).value.1 == s.Rest()
    ensures ok ==> OrderedAt(pool.nodes, i) &&
                   ParseParams(old(s.Rest()), MAX_PARAMS).value.0 == Trees(pool.nodes, pool.nodes[i].params, i)
    ensures !ok ==> s.Rest() == ParamsStop(old(s.Rest()), MAX_PARAMS)
    ensures |s.Rest()| <= |old(s.Rest())|
    decreases |s.Rest()|, 3
  {
    ghost var body, done, kind := s.Rest(), [], pool.nodes[i].kind;
    assert OrderedAt(pool.nodes, i);
    AfterPrepend([], Omitted, ParseParams(body, MAX_PARAMS));
    while |pool.nodes[i].params| < MAX_PARAMS
      invariant s.Valid() && |s.Rest()| <= |body|
      invariant HoldsParams(pool, i, kind, done) && pool.nodes[..i] == old(pool.nodes)[..i]
      invariant OnTrack(body, done, s.Rest()) && StopsAlike(body, done, s.Rest())
      decreases MAX_PARAMS - |done|
    {
      ghost var was := s.Rest();
      var param;
      ok, param := ParseOneMore(s, pool, i, kind, done);
      if !ok {
        return false;
      }
      s.SkipWhitespace();
      StaysOnTrack(body, done, was, s.Rest());
      if s.PeekChar() == ',' {
        StillStopsAlike(body, done, was, done + [ParseParam(was).value.0], s.Rest());
      }
      done := done + [ParseParam(was).value.0];
      if s.PeekChar() != ',' {
        break;
      }
      var _ := s.Advance();
    }
    ok := true;
  }

  /** Node `i` of the pool holds these parameters so far. */
  ghost predicate HoldsParams(pool: TypePool, i: nat, kind: Kind, done: seq<Tree>)
    reads pool
  {
    && pool.Valid() && i < |pool.nodes| && pool.nodes[i].GenericNode? && pool.nodes[i].kind == kind
    && OrderedAt(pool.nodes, i)
    && Trees(pool.nodes, pool.nodes[i].params, i) == done
  }

  /** One parameter, added to node `i` behind the ones it has. */
  method ParseOneMore(s: Scanner, pool: TypePool, i: nat, ghost kind: Kind, ghost done: seq<Tree>)
    returns (ok: bool, param: int)
    requires s.Valid() && HoldsParams(pool, i, kind, done)
    modifies s, pool
    ensures s.Valid() && |s.Rest()| <= |old(s.Rest())|
    ensures ok <==> ParseParam(old(s.Rest())).Some?
    ensures !ok ==> s.Rest() == ParamStop(old(s.Rest()))
    ensures pool.Valid() && |pool.nodes| > i && pool.nodes[..i] == old(pool.nodes)[..i]
    ensures pool.nodes[i].GenericNode? && pool.nodes[i].kind == kind
    ensures ok ==> s.Rest() == ParseParam(old(s.Rest())).value.1
    ensures ok ==> HoldsParams(pool, i, kind, done + [ParseParam(old(s.Rest())).value.0])
    decreases |s.Rest()|, 2
  {
    ghost var before := pool.nodes;
    ok, param := ParseGenericParam(s, pool);
    assert pool.nodes[i] == before[i];
    if !ok {
      return;
    }
    ghost var mid, params := pool.nodes, before[i].params;
    TreesDependAbove(before, mid, params, i);
    pool.AddParam(i, param);
    ghost var now := pool.nodes;
    assert OrderedAt(now, i);
    TreesDependAbove(mid, now, params, i);
    TreeDependsAbove(mid, now, param);
    assert Trees(now, params + [param], i) == done + [TreeAt(now, param)];
  }
}
